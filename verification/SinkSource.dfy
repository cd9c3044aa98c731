// Sources of bytes in flat regions and sinks that collect them.

module SinkSource {
  import opened Machine
  import opened Lz77
  import opened Memory

  function Flatten(regions: seq<bytes>): bytes {
    if regions == [] then [] else regions[0] + Flatten(regions[1..])
  }

  // Dropping n bytes from the front of the regions.
  function Drop(regions: seq<bytes>, n: nat): (r: seq<bytes>)
    requires n <= |Flatten(regions)|
  {
    if regions == [] then []
    else if n < |regions[0]| then [regions[0][n..]] + regions[1..]
    else Drop(regions[1..], n - |regions[0]|)
  }

  lemma {:induction false} DropIsSuffix(regions: seq<bytes>, n: nat)
    requires n <= |Flatten(regions)|
    ensures Flatten(Drop(regions, n)) == Flatten(regions)[n..]
  {
    if regions != [] {
      if n >= |regions[0]| {
        DropIsSuffix(regions[1..], n - |regions[0]|);
      } else {
        var r := [regions[0][n..]] + regions[1..];
        assert r[0] == regions[0][n..] && r[1..] == regions[1..];
      }
    }
  }

  // What remains is regions of the original, the first one shortened.
  lemma {:induction false} DropMembers(regions: seq<bytes>, n: nat, r: bytes)
    requires n <= |Flatten(regions)| && r in Drop(regions, n)
    ensures r in regions || (r != [] && exists q :: q in regions && |r| <= |q|)
  {
    if regions != [] {
      if n >= |regions[0]| {
        DropMembers(regions[1..], n - |regions[0]|, r);
      } else {
        assert regions[0] in regions;
      }
    }
  }

  // The first n bytes of s are gone.
  ghost predicate Skipped(s: bytes, n: nat, t: bytes) {
    n <= |s| && t == s[n..]
  }

  ghost predicate EndsWith(s: bytes, t: bytes) {
    |t| <= |s| && t == s[|s| - |t|..]
  }

  lemma SkipEnds(s: bytes, t: bytes, n: nat)
    requires EndsWith(s, t) && n <= |t|
    ensures EndsWith(s, t[n..])
  {}

  // Of two ends of a sequence the shorter is an end of the longer.
  lemma EndOfEnd(s: bytes, t: bytes, u: bytes)
    requires EndsWith(s, t) && EndsWith(s, u) && |u| <= |t|
    ensures EndsWith(t, u)
  {}

  // A source hands out its bytes region by region.  What it promises is
  // stated in terms of the bytes that remain, never of how they are cut.
  class Source {
    var regions: seq<bytes>
    // Everything it ever had.
    ghost const all: bytes

    // No region is empty, and what remains is the end of what there was.
    ghost predicate Valid()
      reads this
    {
      (forall r :: r in regions ==> r != []) && EndsWith(all, Rest())
    }

    // Every region's length fits the decompressor's 32-bit counter.
    ghost predicate Narrow()
      reads this
    {
      forall r :: r in regions ==> |r| < 0x1_0000_0000
    }

    ghost function Rest(): bytes
      reads this
    {
      Flatten(regions)
    }

    constructor (regions: seq<bytes>)
      requires forall r :: r in regions ==> r != []
      ensures Valid() && Rest() == Flatten(regions)
      ensures (forall r :: r in regions ==> |r| < 0x1_0000_0000) ==> Narrow()
    {
      this.regions, all := regions, Flatten(regions);
    }

    // ByteArraySource: everything in one region.
    constructor FromArray(data: bytes)
      ensures Valid() && Rest() == data && regions == if data == [] then [] else [data]
      ensures |data| < 0x1_0000_0000 ==> Narrow()
    {
      regions, all := if data == [] then [] else [data], data;
      new;
      assert regions != [] ==> regions[1..] == [] && Flatten(regions) == data + Flatten([]);
    }

    lemma RestIsEnd()
      requires Valid()
      ensures EndsWith(all, Rest())
    {}

    method Available() returns (n: nat)
      ensures n == |Rest()|
    {
      n := 0;
      var i := 0;
      assert regions[0..] == regions;
      while i < |regions|
        invariant 0 <= i <= |regions| && n + |Flatten(regions[i..])| == |Rest()|
      {
        assert regions[i..][0] == regions[i] && regions[i..][1..] == regions[i + 1..];
        n := n + |regions[i]|;
        i := i + 1;
      }
    }

    // The next flat region; empty iff nothing remains.
    method Peek() returns (region: bytes)
      requires Valid()
      ensures region <= Rest() && (Narrow() ==> |region| < 0x1_0000_0000)
      ensures region == [] <==> Rest() == []
      ensures regions != [] ==> region == regions[0]
    {
      region := if regions == [] then [] else regions[0];
      assert regions != [] ==> regions[0] in regions;
    }

    method Skip(n: nat)
      requires Valid() && n <= |Rest()|
      modifies this
      ensures Valid() && Rest() == old(Rest())[n..]
      ensures old(Narrow()) ==> Narrow()
    {
      SkipEnds(all, Rest(), n);
      DropIsSuffix(regions, n);
      forall r | r in Drop(regions, n)
        ensures r in regions || (r != [] && exists q :: q in regions && |r| <= |q|)
      {
        DropMembers(regions, n, r);
      }
      regions := Drop(regions, n);
    }
  }

  // Writes to a flat array without any bound checks of its own.
  class UncheckedByteArraySink {
    const mem: array<byte>
    const start: nat
    var dest_: nat

    ghost predicate Valid()
      reads this
    {
      start <= dest_ <= mem.Length
    }

    ghost function Contents(): bytes
      requires Valid()
      reads this, mem
    {
      mem[start..dest_]
    }

    constructor (mem: array<byte>, dest: nat)
      requires dest <= mem.Length
      ensures Valid() && this.mem == mem && start == dest_ == dest
    {
      this.mem, start, dest_ := mem, dest, dest;
    }

    // Does no copying if the caller filled in the append buffer.
    method Append(data: array<byte>, at: nat, n: nat)
      requires Valid() && at + n <= data.Length && dest_ + n <= mem.Length
      requires data == mem ==> at == dest_
      modifies this, mem
      ensures Valid() && dest_ == old(dest_) + n
      ensures mem[old(dest_)..dest_] == old(data[at..at + n])
      ensures OnlyBetween(mem, old(dest_), dest_)
    {
      if data != mem {
        Memcpy(mem, dest_, data[at..at + n]);
      }
      dest_ := dest_ + n;
    }
  }

  // A sink that keeps the default GetAppendBuffer: callers fill their own
  // scratch buffer and the sink copies it.
  class CopyingSink {
    var contents: bytes

    constructor ()
      ensures contents == []
    {
      contents := [];
    }

    method Append(data: array<byte>, at: nat, n: nat)
      requires at + n <= data.Length
      modifies this
      ensures contents == old(contents) + data[at..at + n]
    {
      contents := contents + data[at..at + n];
    }
  }

  datatype Sink = Flat(flat: UncheckedByteArraySink) | Copying(copying: CopyingSink) {
    ghost function Repr(): set<object> {
      match this
      case Flat(f) => {f, f.mem}
      case Copying(c) => {c}
    }

    ghost predicate Valid()
      reads Repr()
    {
      match this
      case Flat(f) => f.Valid()
      case Copying(c) => true
    }

    ghost function Contents(): bytes
      requires Valid()
      reads Repr()
    {
      match this
      case Flat(f) => f.Contents()
      case Copying(c) => c.contents
    }

    // Room for n more bytes of output or scribbling.
    ghost predicate HasRoom(n: nat)
      reads Repr()
    {
      Flat? ==> flat.dest_ + n <= flat.mem.Length
    }

    // A buffer to fill before the next Append.  A flat sink hands out its own
    // memory, whatever room is left there.
    method GetAppendBuffer(n: nat, scratch: array<byte>) returns (buffer: array<byte>, at: nat)
      requires Valid() && n <= scratch.Length
      ensures Flat? ==> buffer == flat.mem && at == flat.dest_
      ensures Copying? ==> buffer == scratch && at == 0
    {
      match this
      case Flat(f) => return f.mem, f.dest_;
      case Copying(_) => return scratch, 0;
    }

    // Append what was written to the append buffer, or data from elsewhere.
    method Append(data: array<byte>, at: nat, n: nat)
      requires Valid() && HasRoom(n) && at + n <= data.Length
      requires Flat? && data == flat.mem ==> at == flat.dest_
      modifies Repr()
      ensures Valid() && Contents() == old(Contents()) + old(data[at..at + n])
      ensures Flat? ==> flat.dest_ == old(flat.dest_) + n && OnlyBetween(flat.mem, old(flat.dest_), flat.dest_)
    {
      match this
      case Flat(f) =>
        ghost var before := f.Contents();
        f.Append(data, at, n);
        assert f.mem[f.start..f.dest_] == f.mem[f.start..old(f.dest_)] + f.mem[old(f.dest_)..f.dest_];
        assert f.mem[f.start..old(f.dest_)] == before;
      case Copying(c) =>
        c.Append(data, at, n);
    }
  }
}
