// Compress: a source of any shape in, a sink of any kind out.

module Compressor {
  import opened Machine
  import opened Lz77
  import opened Memory
  import opened Varint
  import opened MatchFinder
  import opened FragmentCode
  import opened FragmentCompressor
  import opened HashTables
  import opened SinkSource
  import opened Stream
  import opened Choices

  // The table size and hash function of a block of n bytes.
  function SnappyHashing(): Hashing {
    Hashing(n => Pow2(TableBits(n)), n => HashWith(32 - TableBits(n)))
  }

  lemma SnappyHashingValid()
    ensures ValidHashing(SnappyHashing())
  {
    hide Pow2, TableBits, HashWith;
    var h := SnappyHashing();
    forall n: nat
      ensures HashesInto(h.hash(n), h.size(n))
    {
      HashInTable(TableBits(n));
    }
  }

  // The compressed form of an input.
  ghost function Snappy(input: bytes): bytes {
    SnappyHashingValid();
    CompressedBytes(input, SnappyHashing())
  }

  ghost function SnappyBody(input: bytes): bytes {
    SnappyHashingValid();
    BodyBytes(input, SnappyHashing())
  }

  // One round of blocking.
  lemma SnappyBodyStep(input: bytes)
    requires input != []
    ensures var b := BlockLength(|input|);
            && HashesInto(HashWith(32 - TableBits(b)), Pow2(TableBits(b)))
            && SnappyBody(input) ==
               FragmentBytes(input[..b], HashWith(32 - TableBits(b)), Pow2(TableBits(b))) + SnappyBody(input[b..])
  {
    hide Pow2, TableBits, HashWith, FragmentBytes;
    SnappyHashingValid();
    HashInTable(TableBits(BlockLength(|input|)));
  }

  // A piece of the next region extends what has been read so far.
  lemma ReadOn(s: bytes, k: nat, region: bytes, n: nat)
    requires k <= |s| && region <= s[k..] && n <= |region|
    ensures s[..k + n] == s[..k] + region[..n] && s[k..][n..] == s[k + n..]
  {}

  lemma TakeMore(a: array<byte>, k: nat, data: bytes)
    requires k + |data| <= a.Length && a[k..k + |data|] == data
    ensures a[..k + |data|] == a[..k] + data
  {
    assert a[..k + |data|] == a[..k] + a[k..k + |data|];
  }

  // Gather the next block: straight from the source's region if that is long
  // enough, otherwise piecewise into the scratch buffer.  pending says how
  // many bytes are still to be skipped once the block has been compressed.
  method NextBlock(reader: Source, numToRead: nat, scratch0: array?<byte>)
    returns (block: bytes, pending: nat, scratch: array?<byte>)
    requires reader.Valid() && 0 < numToRead <= |reader.Rest()|
    requires scratch0 != null ==> numToRead <= scratch0.Length
    modifies reader, scratch0
    ensures reader.Valid() && pending <= |reader.Rest()|
    ensures block == old(reader.Rest())[..numToRead]
    ensures reader.Rest()[pending..] == old(reader.Rest())[numToRead..]
    ensures scratch == scratch0 || (fresh(scratch) && scratch != null && scratch.Length == numToRead)
  {
    ghost var rest := reader.Rest();
    scratch := scratch0;
    var fragment := reader.Peek();
    var bytesRead := |fragment|;
    assert rest[0..] == rest;
    if bytesRead >= numToRead {
      ReadOn(rest, 0, fragment, numToRead);
      return fragment[..numToRead], numToRead, scratch;
    }
    if scratch == null {
      scratch := new byte[numToRead];
    }
    Memcpy(scratch, 0, fragment);
    ReadOn(rest, 0, fragment, bytesRead);
    reader.Skip(bytesRead);
    GatherBlock(reader, rest, bytesRead, numToRead, scratch);
    block, pending := scratch[..numToRead], 0;
  }

  // Keep peeking and copying until the block is complete.
  method GatherBlock(reader: Source, ghost rest: bytes, start: nat, numToRead: nat, scratch: array<byte>)
    requires 0 < start <= numToRead <= |rest| && numToRead <= scratch.Length
    requires reader.Valid() && reader.Rest() == rest[start..] && scratch[..start] == rest[..start]
    modifies reader, scratch
    ensures reader.Valid() && reader.Rest() == rest[numToRead..]
    ensures scratch[..numToRead] == rest[..numToRead]
  {
    hide Flatten, EndsWith;
    var bytesRead := start;
    while bytesRead < numToRead
      invariant start <= bytesRead <= numToRead
      invariant reader.Valid() && reader.Rest() == rest[bytesRead..]
      invariant scratch[..bytesRead] == rest[..bytesRead]
    {
      var fragment := reader.Peek();
      var n := Min(|fragment|, numToRead - bytesRead);
      ReadOn(rest, bytesRead, fragment, n);
      Memcpy(scratch, bytesRead, fragment[..n]);
      TakeMore(scratch, bytesRead, fragment[..n]);
      bytesRead := bytesRead + n;
      reader.Skip(n);
    }
  }

  // Compress one block into the sink.
  method EmitBlock(block: bytes, wmem: WorkingMemory, writer: Sink, scratchOutput: array<byte>) returns (size: nat)
    requires 0 < |block| <= kBlockSize && wmem.Valid() && writer.Valid()
    requires MaxCompressedLength(|block|) <= scratchOutput.Length && writer.HasRoom(FragmentBound(|block|))
    requires writer.Flat? ==> writer.flat.mem != scratchOutput
    requires wmem !in writer.Repr() && wmem.Tables() !! writer.Repr() && scratchOutput !in writer.Repr()
    modifies wmem, wmem.Tables(), writer.Repr(), scratchOutput
    ensures wmem.Valid() && fresh(wmem.Tables() - old(wmem.Tables())) && writer.Valid()
    ensures HashesInto(HashWith(32 - TableBits(|block|)), Pow2(TableBits(|block|)))
    ensures var code := FragmentBytes(block, HashWith(32 - TableBits(|block|)), Pow2(TableBits(|block|)));
            size == |code| <= FragmentBound(|block|) && writer.Contents() == old(writer.Contents()) + code
    ensures writer.Flat? ==>
              && writer.flat.dest_ == old(writer.flat.dest_) + size
              && OnlyBetween(writer.flat.mem, old(writer.flat.dest_), old(writer.flat.dest_) + FragmentBound(|block|))
  {
    hide Pow2, TableBits, HashWith, FragmentBytes, FragmentBound, MaxCompressedLength;
    TableBitsFits(|block|);
    BoundIsEnough(|block|);
    ghost var contents := writer.Contents();
    var table, tableSize := wmem.GetHashTable(|block|);
    var maxOutput := MaxCompressedLength(|block|);
    var dest, at := writer.GetAppendBuffer(maxOutput, scratchOutput);
    var end := CompressFragment(block, dest, at, table, tableSize, TableBits(|block|));
    assert writer.Valid();
    assert writer.Contents() == contents;
    writer.Append(dest, at, end - at);
    size := end - at;
  }

  // The preamble: the length, truncated to 32 bits.
  method EmitLength(n: nat, writer: Sink) returns (size: nat)
    requires writer.Valid() && writer.HasRoom(kMax32)
    modifies writer.Repr()
    ensures writer.Valid() && writer.Contents() == old(writer.Contents()) + Encode32(n % 0x1_0000_0000)
    ensures size == |Encode32(n % 0x1_0000_0000)|
    ensures writer.Flat? ==>
              && writer.flat.dest_ == old(writer.flat.dest_) + size
              && OnlyBetween(writer.flat.mem, old(writer.flat.dest_), writer.flat.dest_)
  {
    hide Encode32;
    ghost var contents := writer.Contents();
    var ulength := new byte[kMax32];
    var code := Encode32(n % 0x1_0000_0000);
    Memcpy(ulength, 0, code);
    size := |code|;
    assert ulength[0..size] == code;
    assert writer.Valid() && writer.Contents() == contents;
    writer.Append(ulength, 0, size);
  }

  // How the output of Flat sinks is confined: everything from the sink's
  // position on, but no further than bound bytes.
  twostate predicate Confined(writer: Sink, bound: nat)
    reads writer.Repr()
  {
    writer.Flat? ==>
      && old(writer.flat.dest_) <= writer.flat.dest_ <= old(writer.flat.dest_) + bound
      && OnlyBetween(writer.flat.mem, old(writer.flat.dest_), old(writer.flat.dest_) + bound)
  }

  // One round: gather a block, compress it into the sink, move on.
  method CompressBlock(reader: Source, writer: Sink, wmem: WorkingMemory, numToRead: nat, scratch0: array?<byte>,
                       scratchOutput0: array?<byte>)
    returns (size: nat, scratch: array?<byte>, scratchOutput: array<byte>)
    requires reader.Valid() && writer.Valid() && wmem.Valid() && 0 < numToRead == BlockLength(|reader.Rest()|)
    requires ScratchFits(scratch0, scratchOutput0, numToRead, writer)
    requires writer.HasRoom(FragmentBound(numToRead))
    requires reader !in writer.Repr() && wmem !in writer.Repr() && wmem.Tables() !! writer.Repr()
    modifies reader, writer.Repr(), wmem, wmem.Tables(), scratch0, scratchOutput0
    ensures reader.Valid() && writer.Valid() && wmem.Valid() && fresh(wmem.Tables() - old(wmem.Tables()))
    ensures Skipped(old(reader.Rest()), numToRead, reader.Rest())
    ensures |writer.Contents()| == |old(writer.Contents())| + size
    ensures writer.Contents() + SnappyBody(reader.Rest()) == old(writer.Contents()) + SnappyBody(old(reader.Rest()))
    ensures size <= FragmentBound(numToRead)
    ensures writer.Flat? ==>
              && writer.flat.dest_ == old(writer.flat.dest_) + size
              && OnlyBetween(writer.flat.mem, old(writer.flat.dest_), old(writer.flat.dest_) + FragmentBound(numToRead))
    ensures ScratchFits(scratch, scratchOutput, numToRead, writer)
    ensures scratch == scratch0 || fresh(scratch)
    ensures scratchOutput == scratchOutput0 || fresh(scratchOutput)
  {
    hide HashesInto, Sink.HasRoom, Pow2, TableBits, HashWith, FragmentBytes, SnappyBody, MaxCompressedLength;
    hide FragmentBound;
    hide Flatten, EndsWith, Zeros, Sink.Contents;
    ghost var rest, contents := reader.Rest(), writer.Contents();
    SnappyBodyStep(rest);
    var block, pending;
    block, pending, scratch := NextBlock(reader, numToRead, scratch0);
    if scratchOutput0 == null {
      scratchOutput := new byte[MaxCompressedLength(numToRead)];
    } else {
      scratchOutput := scratchOutput0;
    }
    assert writer.Valid() && writer.Contents() == contents;
    size := EmitBlock(block, wmem, writer, scratchOutput);
    reader.Skip(pending);
  }

  // The scratch buffers are absent or large enough for the next block.
  ghost predicate ScratchFits(scratch: array?<byte>, scratchOutput: array?<byte>, blockLength: nat, writer: Sink) {
    && (scratch != null ==> blockLength <= scratch.Length && scratch !in writer.Repr())
    && (scratchOutput != null ==>
          MaxCompressedLength(blockLength) <= scratchOutput.Length && scratchOutput !in writer.Repr())
    && (scratch != null ==> scratch != scratchOutput)
  }

  // The whole of Compress.  What is appended depends only on the bytes of
  // the source and not on its regions; written counts it; and a flat sink is
  // not touched beyond MaxCompressedLength bytes.  Of these, spaces[k] are
  // left when the k-th block is handed to CompressFragment.
  method Compress(reader: Source, writer: Sink) returns (written: nat, ghost spaces: seq<int>)
    requires reader.Valid() && writer.Valid() && reader !in writer.Repr()
    requires writer.HasRoom(MaxCompressedLength(|reader.Rest()|))
    modifies reader, writer.Repr()
    ensures reader.Valid() && reader.Rest() == [] && writer.Valid()
    ensures writer.Contents() == old(writer.Contents()) + Snappy(old(reader.Rest()))
    ensures written == |Snappy(old(reader.Rest()))| <= MaxCompressedLength(|old(reader.Rest())|)
    ensures Confined(writer, MaxCompressedLength(|old(reader.Rest())|))
    ensures AreSpaces(spaces, old(reader.Rest()), |old(reader.Rest())|)
  {
    hide Encode32, Snappy, SnappyBody, FragmentBound, MaxCompressedLength, Flatten, EndsWith, SpaceLeft, AreSpaces;
    ghost var input, contents := reader.Rest(), writer.Contents();
    var total := reader.Available();
    SnappyUnfolds(input);
    SnappySize(input);
    var headerSize := EmitLength(total, writer);
    ghost var middle := writer.Contents();
    assert middle + SnappyBody(input) == contents + Snappy(input);
    written, spaces := CompressBlocks(reader, writer, input, headerSize);
    assert |writer.Contents()| == |contents| + written;
  }

  // The blocks, after `headerSize` bytes of preamble.
  method CompressBlocks(reader: Source, writer: Sink, ghost input: bytes, headerSize: nat)
    returns (written: nat, ghost spaces: seq<int>)
    requires reader.Valid() && writer.Valid() && reader !in writer.Repr()
    requires reader.Rest() == input &&
             headerSize + |SnappyBody(input)| == |Snappy(input)| <= MaxCompressedLength(|input|)
    requires writer.HasRoom(MaxCompressedLength(|input|) - headerSize)
    modifies reader, writer.Repr()
    ensures reader.Valid() && reader.Rest() == [] && writer.Valid()
    ensures writer.Contents() == old(writer.Contents()) + SnappyBody(input)
    ensures written == |Snappy(input)|
    ensures writer.Flat? ==> writer.flat.dest_ == old(writer.flat.dest_) + written - headerSize
    ensures writer.Flat? ==> OnlyBetween(writer.flat.mem, old(writer.flat.dest_),
                                         old(writer.flat.dest_) + MaxCompressedLength(|input|) - headerSize)
    ensures AreSpaces(spaces, input, |input|)
  {
    hide SnappyBody, Snappy, FragmentBound, MaxCompressedLength, Flatten, EndsWith;
    hide SpaceLeft, AreSpaces, ScratchFits, Sink.Contents, Sink.Valid, Source.Valid, WorkingMemory.Valid;
    NoScratch(writer);
    SnappyBodyEmpty();
    NoSpaces(input);
    ghost var contents, total := writer.Contents(), |input|;
    ghost var goal := contents + SnappyBody(input);
    var remaining: nat := reader.Available();
    written, spaces := headerSize, [];
    var wmem := new WorkingMemory();
    var scratch: array?<byte>, scratchOutput: array?<byte> := null, null;
    assert Skipped(input, 0, input);
    hide Skipped;
    while remaining > 0
      invariant reader.Valid() && writer.Valid() && wmem.Valid()
      invariant fresh(wmem) && fresh(wmem.Tables())
      invariant scratch == null || fresh(scratch)
      invariant scratchOutput == null || fresh(scratchOutput)
      invariant ScratchFits(scratch, scratchOutput, BlockLength(remaining), writer)
      invariant remaining <= total && |reader.Rest()| == remaining && Skipped(input, total - remaining, reader.Rest())
      invariant remaining > 0 ==> (total - remaining) % kBlockSize == 0
      invariant writer.Contents() + SnappyBody(reader.Rest()) == goal
      invariant |writer.Contents()| == |contents| + written - headerSize
      invariant headerSize <= written && AreSpaces(spaces, input, total - remaining)
      invariant writer.Flat? ==> writer.flat.dest_ == old(writer.flat.dest_) + written - headerSize
      invariant writer.Flat? ==> OnlyBetween(writer.flat.mem, old(writer.flat.dest_),
                                             old(writer.flat.dest_) + MaxCompressedLength(total) - headerSize)
    {
      ghost var done := total - remaining;
      var numToRead := Min(remaining, kBlockSize);
      ghost var rest := reader.Rest();
      NextSpace(spaces, input, done, rest, written);
      spaces := spaces + [MaxCompressedLength(total) - written];
      var size;
      size, scratch, scratchOutput := CompressBlock(reader, writer, wmem, numToRead, scratch, scratchOutput);
      SkipMore(input, done, rest, numToRead, reader.Rest());
      ScratchStillFits(scratch, scratchOutput, remaining, remaining - numToRead, writer);
      written := written + size;
      remaining := remaining - numToRead;
    }
    assert writer.Contents() + [] == writer.Contents();
  }

  lemma SnappyBodyEmpty()
    ensures SnappyBody([]) == []
  {}

  // ------------------------------------------------------------------
  // The space a block is compressed into
  // ------------------------------------------------------------------

  // A block starts after the first `done` bytes of the input.
  predicate BlockStart(input: bytes, done: nat) {
    done < |input| && done % kBlockSize == 0
  }

  // What is then left of the MaxCompressedLength bytes for all of the input:
  // the preamble and the blocks before this one are written.
  ghost function SpaceLeft(input: bytes, done: nat): int
    requires done <= |input|
  {
    MaxCompressedLength(|input|) - (|Snappy(input)| - |SnappyBody(input[done..])|)
  }

  // The space left at each of the blocks that start in the first `done` bytes.
  ghost predicate AreSpaces(spaces: seq<int>, input: bytes, done: nat) {
    && done <= |spaces| * 0x1_0000 < done + 0x1_0000
    && forall k :: 0 <= k < |spaces| ==> k * 0x1_0000 < |input| && spaces[k] == SpaceLeft(input, k * 0x1_0000)
  }

  lemma NoSpaces(input: bytes)
    ensures AreSpaces([], input, 0)
  {}

  // What is left when a block's turn comes is known, and covers all that the
  // block can touch.
  lemma NextSpace(spaces: seq<int>, input: bytes, done: nat, rest: bytes, written: int)
    requires BlockStart(input, done) && AreSpaces(spaces, input, done)
    requires Skipped(input, done, rest) && written + |SnappyBody(rest)| == |Snappy(input)|
    ensures var left, length := MaxCompressedLength(|input|) - written, BlockLength(|input| - done);
            FragmentBound(length) <= left && AreSpaces(spaces + [left], input, done + length)
  {
    hide Snappy, SnappyBody, MaxCompressedLength, FragmentBound;
    SpaceCoversBlock(input, done);
    assert |spaces| * 0x1_0000 == done;
  }

  // Full blocks grow by at most 1075 bytes each.
  lemma {:induction false} BodyBudget(input: bytes, done: nat)
    requires done <= |input| && done % kBlockSize == 0
    ensures 0 <= 0x1_0000 * (|SnappyBody(input)| - |SnappyBody(input[done..])|) <= 0x1_0433 * done
  {
    hide SnappyBody, FragmentBytes, TableBits, Pow2, HashWith;
    if done == 0 {
      assert input[0..] == input;
    } else {
      var rest := input[kBlockSize..];
      SnappyBodyStep(input);
      FragmentSize(input[..kBlockSize], HashWith(32 - TableBits(kBlockSize)), Pow2(TableBits(kBlockSize)));
      BodyBudget(rest, done - kBlockSize);
      assert rest[done - kBlockSize..] == input[done..];
    }
  }

  lemma SpaceBudget(input: bytes, done: nat)
    requires done <= |input| && done % kBlockSize == 0
    ensures var spent := MaxCompressedLength(|input|) - SpaceLeft(input, done);
            var header := |Encode32(|input| % 0x1_0000_0000)|;
            0x1_0000 * header <= 0x1_0000 * spent <= 0x1_0000 * header + 0x1_0433 * done
  {
    hide SnappyBody, Snappy, Encode32;
    SnappyUnfolds(input);
    BodyBudget(input, done);
  }

  // A compressed form is at most 1.65 % and six bytes longer than its input.
  lemma SnappyGrowth(input: bytes)
    ensures 0x1_0000 * |Snappy(input)| <= 0x1_0433 * |input| + 6 * 0x1_0000
  {
    hide SnappyBody, Snappy, Encode32;
    var done := |input| - |input| % kBlockSize;
    SnappyUnfolds(input);
    HeaderLength(|input|);
    BodyBudget(input, done);
    LastBlockSize(input[done..]);
  }

  lemma LastBlockSize(rest: bytes)
    requires |rest| < kBlockSize
    ensures 0x1_0000 * |SnappyBody(rest)| <= 0x1_0433 * |rest| + 0x1_0000
  {
    hide SnappyBody, FragmentBytes, TableBits, Pow2, HashWith;
    SnappyBodyEmpty();
    if rest != [] {
      var b := |rest|;
      SnappyBodyStep(rest);
      assert rest[..b] == rest && rest[b..] == [];
      FragmentSize(rest, HashWith(32 - TableBits(b)), Pow2(TableBits(b)));
    }
  }

  // The longest inputs for which the growth alone keeps the compressed form
  // below 2^32 bytes.
  const kNarrowInput: nat := 4_225_653_065

  lemma SnappyIsNarrow(input: bytes)
    requires |input| <= kNarrowInput
    ensures |Snappy(input)| < 0x1_0000_0000
  {
    hide Snappy;
    SnappyGrowth(input);
  }

  // Every block has room for all it can touch.
  lemma SpaceCoversBlock(input: bytes, done: nat)
    requires BlockStart(input, done)
    ensures FragmentBound(BlockLength(|input| - done)) <= SpaceLeft(input, done)
  {
    hide SpaceLeft, Encode32;
    SpaceBudget(input, done);
  }

  // What CompressFragment asks for in its documentation.
  ghost predicate DocumentedSpace(input: bytes) {
    forall done: nat :: BlockStart(input, done) ==>
      MaxCompressedLength(BlockLength(|input| - done)) <= SpaceLeft(input, done)
  }

  lemma HeaderLength(n: nat)
    ensures var header := |Encode32(n % 0x1_0000_0000)|;
            1 <= header <= 5 && (n < 0x80 ==> header == 1) && (0x80 <= n < 0x4000 ==> header == 2) &&
                (0x4000 <= n < 0x20_0000 ==> header == 3)
  {}

  // A later block always has the space the documentation asks for, the first
  // one is at most three bytes short of it.
  lemma SpaceShortfall(input: bytes, done: nat)
    requires BlockStart(input, done)
    ensures MaxCompressedLength(BlockLength(|input| - done)) <= SpaceLeft(input, done) + if done == 0 then 3 else 0
    ensures done == 0 ==>
              (MaxCompressedLength(BlockLength(|input|)) <= SpaceLeft(input, 0) <==> |input| >= 0x1_0002)
  {
    hide SpaceLeft, Encode32;
    HeaderLength(|input|);
    SpaceBudget(input, done);
    if done > 0 {
      LaterSpace(|input|, done, MaxCompressedLength(|input|) - SpaceLeft(input, done));
    }
  }

  lemma LaterSpace(n: nat, done: nat, spent: int)
    requires 0 < done < n && done % kBlockSize == 0 && 0x1_0000 * spent <= 0x1_0000 * 5 + 0x1_0433 * done
    ensures MaxCompressedLength(BlockLength(n - done)) <= MaxCompressedLength(n) - spent
  {
    var b := BlockLength(n - done);
    assert done >= 0x1_0000 && b + done <= n;
    assert 6 * (n / 6) >= n - 5 && 6 * (b / 6) <= b;
    assert 6 * (n / 6 - b / 6) >= done - 5;
  }

  // The documented requirement is met for empty inputs and for inputs of
  // 65538 bytes and more, and for no others.
  lemma DocumentedSpaceExactly(input: bytes)
    ensures DocumentedSpace(input) <==> |input| == 0 || |input| >= 0x1_0002
  {
    hide SpaceLeft;
    forall done: nat | BlockStart(input, done)
      ensures |input| >= 0x1_0002 ==> MaxCompressedLength(BlockLength(|input| - done)) <= SpaceLeft(input, done)
    {
      SpaceShortfall(input, done);
    }
    if 0 < |input| < 0x1_0002 {
      assert BlockStart(input, 0);
      SpaceShortfall(input, 0);
    }
  }

  // One byte of input leaves 32 bytes for its block, which asks for 33.
  lemma OneByteShort(b: byte)
    ensures SpaceLeft([b], 0) == 32 && MaxCompressedLength(1) == 33 && !DocumentedSpace([b])
  {
    hide SnappyBody;
    SnappyUnfolds([b]);
    assert [b][0..] == [b];
    DocumentedSpaceExactly([b]);
  }

  lemma SnappySize(input: bytes)
    ensures |Snappy(input)| <= MaxCompressedLength(|input|) && kMax32 <= MaxCompressedLength(|input|)
  {
    SnappyHashingValid();
    CompressedSize(input, SnappyHashing());
  }

  lemma SkipMore(s: bytes, k: nat, t: bytes, n: nat, u: bytes)
    requires Skipped(s, k, t) && Skipped(t, n, u)
    ensures |u| == |t| - n && Skipped(s, k + n, u)
  {}

  lemma NoScratch(writer: Sink)
    ensures forall n: nat :: ScratchFits(null, null, n, writer)
  {}

  lemma ScratchStillFits(scratch: array?<byte>, scratchOutput: array?<byte>, n: nat, m: nat, writer: Sink)
    requires m <= n && ScratchFits(scratch, scratchOutput, BlockLength(n), writer)
    ensures ScratchFits(scratch, scratchOutput, BlockLength(m), writer)
  {
    assert MaxCompressedLength(BlockLength(m)) <= MaxCompressedLength(BlockLength(n));
  }

  lemma SnappyUnfolds(input: bytes)
    ensures Snappy(input) == Encode32(|input| % 0x1_0000_0000) + SnappyBody(input)
  {}

  // ------------------------------------------------------------------
  // Blocks and runs
  // ------------------------------------------------------------------

  // Blocks are compressed independently of each other.
  lemma {:induction false} BlocksAreIndependent(a: bytes, b: bytes)
    requires |a| % 0x1_0000 == 0
    ensures SnappyBody(a + b) == SnappyBody(a) + SnappyBody(b)
    decreases |a|
  {
    hide SnappyBody, FragmentBytes, HashWith, TableBits, Pow2;
    if a == [] {
      SnappyBodyEmpty();
      assert a + b == b && SnappyBody(a) + SnappyBody(b) == SnappyBody(b);
    } else {
      SnappyBodyStep(a);
      SnappyBodyStep(a + b);
      assert (a + b)[..0x1_0000] == a[..0x1_0000] && (a + b)[0x1_0000..] == a[0x1_0000..] + b;
      BlocksAreIndependent(a[0x1_0000..], b);
    }
  }

  lemma SnappyOfBlock(input: bytes)
    requires 0 < |input| <= kBlockSize
    ensures HashesInto(HashWith(32 - TableBits(|input|)), Pow2(TableBits(|input|)))
    ensures SnappyBody(input) == FragmentBytes(input, HashWith(32 - TableBits(|input|)), Pow2(TableBits(|input|)))
  {
    hide SnappyBody, FragmentBytes, HashWith, TableBits, Pow2;
    SnappyBodyStep(input);
    SnappyBodyEmpty();
    var b := |input|;
    assert input[..b] == input && input[b..] == [];
  }

  // A run of one byte is compressed to three bytes for every 64.
  lemma RunCompresses(input: bytes)
    requires OneByte(input) && 17 <= |input| <= 0x1_0000
    ensures |Snappy(input)| == |Encode32(|input|)| + 2 + 3 * ((|input| + 62) / 64) -
                               (if 1 <= (|input| - 1) % 64 < 12 then 1 else 0)
  {
    hide SnappyBody, Snappy, FragmentBytes, HashWith, TableBits, Pow2, Encode32, OneByte;
    SnappyUnfolds(input);
    SnappyOfBlock(input);
    RunSize(input, HashWith(32 - TableBits(|input|)), Pow2(TableBits(|input|)));
  }

  // Longer runs as well: at most 3074 bytes for every full block.
  lemma {:induction false} LongRunCompresses(input: bytes)
    requires OneByte(input)
    ensures 0x1_0000 * |SnappyBody(input)| <= 3074 * |input| + 17 * 0x1_0000
    decreases |input|
  {
    hide SnappyBody, FragmentBytes, HashWith, TableBits, Pow2;
    SnappyBodyEmpty();
    var b := BlockLength(|input|);
    var rest := input[b..];
    SnappyBodyStep(input);
    RunSize(input[..b], HashWith(32 - TableBits(b)), Pow2(TableBits(b)));
    if rest != [] {
      LongRunCompresses(rest);
    }
  }

  // RawCompress: from one array into another.
  method RawCompress(input: bytes, compressed: array<byte>, at: nat) returns (compressedLength: nat)
    requires at + MaxCompressedLength(|input|) <= compressed.Length
    modifies compressed
    ensures compressedLength <= MaxCompressedLength(|input|)
    ensures compressed[at..at + compressedLength] == Snappy(input)
    ensures forall i :: 0 <= i < compressed.Length && !(at <= i < at + MaxCompressedLength(|input|)) ==>
              compressed[i] == old(compressed[i])
  {
    hide Snappy, MaxCompressedLength;
    var reader := new Source.FromArray(input);
    var flat := new UncheckedByteArraySink(compressed, at);
    var writer := Flat(flat);
    assert writer.Contents() == [];
    ghost var spaces;
    compressedLength, spaces := Compress(reader, writer);
    assert writer.Contents() == [] + Snappy(input);
    assert [] + Snappy(input) == Snappy(input);
  }
}
