// Decompressing into a scattered sequence of buffers.

module IOVecWriters {
  import opened Machine
  import opened Lz77
  import opened Memory
  import opened ArrayWriters

  // struct iovec: a slice of some array.
  datatype IOVec = IOVec(mem: array<byte>, base: nat, len: nat)

  // The buffers are slices of their arrays and do not overlap.
  ghost predicate Disjoint(iov: seq<IOVec>) {
    && (forall i :: 0 <= i < |iov| ==> iov[i].base + iov[i].len <= iov[i].mem.Length)
    && forall i, j :: 0 <= i < |iov| && 0 <= j < |iov| && i != j ==> Separate(iov[i], iov[j])
  }

  ghost predicate Separate(a: IOVec, b: IOVec) {
    || a.mem != b.mem
    || a.base + a.len <= b.base || b.base + b.len <= a.base
    || a.len == 0 || b.len == 0
  }

  ghost function Mems(iov: seq<IOVec>): set<array<byte>> {
    set i | 0 <= i < |iov| :: iov[i].mem
  }

  // Where buffer i starts in the concatenation of all buffers.
  ghost function Start(iov: seq<IOVec>, i: nat): nat
    requires i <= |iov|
  {
    if i == 0 then 0 else Start(iov, i - 1) + iov[i - 1].len
  }

  ghost function Capacity(iov: seq<IOVec>): nat {
    Start(iov, |iov|)
  }

  lemma {:induction false} StartMonotone(iov: seq<IOVec>, i: nat, j: nat)
    requires i <= j <= |iov|
    ensures Start(iov, i) <= Start(iov, j)
    ensures i < j ==> Start(iov, i) + iov[i].len <= Start(iov, j)
    decreases j
  {
    if i < j {
      StartMonotone(iov, i, j - 1);
    }
  }

  // ------------------------------------------------------------------
  // What the arrays hold, as values
  // ------------------------------------------------------------------

  type Heap = map<array<byte>, bytes>

  ghost predicate Covers(h: Heap, iov: seq<IOVec>) {
    forall m :: m in Mems(iov) ==> m in h && |h[m]| == m.Length
  }

  ghost function Now(iov: seq<IOVec>): (h: Heap)
    reads Mems(iov)
    ensures Covers(h, iov)
  {
    map m | m in Mems(iov) :: m[..]
  }

  ghost function Slice(v: IOVec, h: Heap): (s: bytes)
    requires v.mem in h && v.base + v.len <= |h[v.mem]|
    ensures |s| == v.len
  {
    h[v.mem][v.base..v.base + v.len]
  }

  // The first n buffers one after the other.
  ghost function Gather(iov: seq<IOVec>, h: Heap, n: nat): (s: bytes)
    requires Disjoint(iov) && Covers(h, iov) && n <= |iov|
    ensures |s| == Start(iov, n)
  {
    if n == 0 then [] else Gather(iov, h, n - 1) + Slice(iov[n - 1], h)
  }

  // All of them.
  ghost function Gathered(iov: seq<IOVec>, h: Heap): (s: bytes)
    requires Disjoint(iov) && Covers(h, iov)
    ensures |s| == Capacity(iov)
  {
    Gather(iov, h, |iov|)
  }

  lemma Within(s: bytes, t: bytes, a: nat, n: nat)
    requires a + n <= |s|
    ensures (s + t)[..a] == s[..a] && (s + t)[a..a + n] == s[a..a + n]
  {}

  lemma Ends(s: bytes, t: bytes)
    ensures (s + t)[..|s|] == s && (s + t)[|s|..|s| + |t|] == t
  {}

  // Buffer c within the first n.
  lemma {:induction false} GatherAt(iov: seq<IOVec>, h: Heap, c: nat, n: nat)
    requires Disjoint(iov) && Covers(h, iov) && c < n <= |iov|
    ensures Start(iov, c) + iov[c].len <= Start(iov, n)
    ensures Gather(iov, h, n)[..Start(iov, c)] == Gather(iov, h, c)
    ensures Gather(iov, h, n)[Start(iov, c)..Start(iov, c) + iov[c].len] == Slice(iov[c], h)
  {
    hide Slice, Separate;
    var most, last := Gather(iov, h, n - 1), Slice(iov[n - 1], h);
    if c < n - 1 {
      GatherAt(iov, h, c, n - 1);
      Within(most, last, Start(iov, c), iov[c].len);
    } else {
      Ends(most, last);
    }
  }

  lemma {:induction false} GatherSame(iov: seq<IOVec>, h: Heap, h': Heap, n: nat)
    requires Disjoint(iov) && Covers(h, iov) && Covers(h', iov) && n <= |iov|
    requires forall i :: 0 <= i < n ==> Slice(iov[i], h) == Slice(iov[i], h')
    ensures Gather(iov, h, n) == Gather(iov, h', n)
  {
    if n > 0 {
      GatherSame(iov, h, h', n - 1);
    }
  }

  // Buffers cut from the front of one array, one behind the other, together
  // are that array.
  ghost predicate CutFrom(iov: seq<IOVec>, m: array<byte>) {
    Capacity(iov) <= m.Length && forall i :: 0 <= i < |iov| ==> iov[i].mem == m && iov[i].base == Start(iov, i)
  }

  lemma CutsAreDisjoint(iov: seq<IOVec>, m: array<byte>)
    requires CutFrom(iov, m)
    ensures Disjoint(iov)
  {
    forall i | 0 <= i < |iov|
      ensures iov[i].base + iov[i].len <= m.Length
    {
      StartMonotone(iov, i, |iov|);
    }
    forall i, j | 0 <= i < |iov| && 0 <= j < |iov| && i != j
      ensures Separate(iov[i], iov[j])
    {
      if i < j { StartMonotone(iov, i, j); } else { StartMonotone(iov, j, i); }
    }
  }

  lemma {:induction false} CutsGather(iov: seq<IOVec>, m: array<byte>, h: Heap, n: nat)
    requires CutFrom(iov, m) && Disjoint(iov) && Covers(h, iov) && n <= |iov|
    requires m in h && |h[m]| == m.Length
    ensures Start(iov, n) <= |h[m]| && Gather(iov, h, n) == h[m][..Start(iov, n)]
  {
    hide Slice, Gather, CutFrom, Disjoint, Start;
    GatherStep(iov, h, n);
    if n > 0 {
      CutAt(iov, m, n - 1);
      CutsGather(iov, m, h, n - 1);
      SliceJoins(iov[n - 1], h);
    }
  }

  lemma CutAt(iov: seq<IOVec>, m: array<byte>, i: nat)
    requires CutFrom(iov, m) && i < |iov|
    ensures iov[i].mem == m && iov[i].base == Start(iov, i)
    ensures Start(iov, i) + iov[i].len == Start(iov, i + 1) <= m.Length
  {
    StartMonotone(iov, i + 1, |iov|);
  }

  lemma GatherStep(iov: seq<IOVec>, h: Heap, n: nat)
    requires Disjoint(iov) && Covers(h, iov) && n <= |iov|
    ensures n == 0 ==> Gather(iov, h, n) == [] && Start(iov, n) == 0
    ensures n > 0 ==> Gather(iov, h, n) == Gather(iov, h, n - 1) + Slice(iov[n - 1], h)
  {}

  lemma CutsGathered(iov: seq<IOVec>, m: array<byte>, h: Heap, content: bytes)
    requires CutFrom(iov, m) && Disjoint(iov) && Covers(h, iov) && |content| == m.Length
    requires iov != [] ==> m in h && h[m] == content
    ensures Gathered(iov, h) == content[..Capacity(iov)]
  {
    if iov != [] {
      CutsGather(iov, m, h, |iov|);
    }
  }

  lemma CutMems(iov: seq<IOVec>, m: array<byte>)
    requires CutFrom(iov, m)
    ensures Mems(iov) <= {m} && (iov != [] ==> m in Mems(iov)) && (iov == [] ==> Capacity(iov) == 0)
  {
    assert iov != [] ==> iov[0].mem == m;
  }

  lemma SliceJoins(v: IOVec, h: Heap)
    requires v.mem in h && v.base + v.len <= |h[v.mem]|
    ensures h[v.mem][..v.base] + Slice(v, h) == h[v.mem][..v.base + v.len]
  {}

  // Position p of array m is one of the first `limit` bytes of the buffers.
  ghost predicate Target(iov: seq<IOVec>, limit: nat, m: array<byte>, p: nat) {
    exists i :: 0 <= i < |iov| && iov[i].mem == m && iov[i].base <= p < iov[i].base + iov[i].len &&
                Start(iov, i) + (p - iov[i].base) < limit
  }

  // Everything else is as it was.
  ghost predicate Spared(iov: seq<IOVec>, before: Heap, after: Heap, limit: nat) {
    && Covers(before, iov) && Covers(after, iov)
    && forall m: array<byte>, p: nat :: m in Mems(iov) && p < m.Length && !Target(iov, limit, m, p) ==>
         after[m][p] == before[m][p]
  }

  lemma CutsSpared(iov: seq<IOVec>, m: array<byte>, before: Heap, after: Heap, limit: nat)
    requires CutFrom(iov, m) && Spared(iov, before, after, limit)
    ensures iov != [] ==>
              && m in before && m in after && |before[m]| == |after[m]| == m.Length
              && forall p: nat :: limit <= p < m.Length ==> after[m][p] == before[m][p]
  {
    if iov != [] {
      assert iov[0].mem in Mems(iov);
      forall p: nat | limit <= p < m.Length
        ensures !Target(iov, limit, m, p)
      {}
    }
  }

  // A store changed nothing but n bytes from position w of buffer c.
  ghost predicate StoredAt(iov: seq<IOVec>, h: Heap, h': Heap, c: nat, w: nat, n: nat) {
    && c < |iov| && w + n <= iov[c].len && Covers(h, iov) && Covers(h', iov)
    && forall m: array<byte>, p: nat :: m in Mems(iov) && p < m.Length ==>
         (m == iov[c].mem && iov[c].base + w <= p < iov[c].base + w + n) || h'[m][p] == h[m][p]
  }

  lemma StoreSpares(iov: seq<IOVec>, before: Heap, h: Heap, h': Heap, c: nat, w: nat, n: nat, limit: nat)
    requires Disjoint(iov) && Spared(iov, before, h, limit) && StoredAt(iov, h, h', c, w, n)
    requires Start(iov, c) + w + n <= limit
    ensures Spared(iov, before, h', limit)
  {
    hide Start;
    forall m: array<byte>, p: nat | m in Mems(iov) && p < m.Length && !Target(iov, limit, m, p)
      ensures h'[m][p] == before[m][p]
    {
      assert m == iov[c].mem && iov[c].base + w <= p < iov[c].base + w + n ==>
        Start(iov, c) + (p - iov[c].base) < limit;
    }
  }

  lemma StoreElsewhere(iov: seq<IOVec>, h: Heap, h': Heap, c: nat, w: nat, n: nat, i: nat)
    requires Disjoint(iov) && StoredAt(iov, h, h', c, w, n) && i < |iov| && i != c
    ensures Slice(iov[i], h) == Slice(iov[i], h')
  {
    var s, s', v := Slice(iov[i], h), Slice(iov[i], h'), iov[i];
    assert v.mem in Mems(iov) && Separate(v, iov[c]);
    forall k | 0 <= k < v.len
      ensures s[k] == s'[k]
    {
      var p := v.base + k;
      assert p < v.mem.Length && h[v.mem][p] == s[k] && h'[v.mem][p] == s'[k];
    }
  }

  lemma StoreAfter(iov: seq<IOVec>, h: Heap, h': Heap, c: nat, w: nat, n: nat)
    requires Disjoint(iov) && StoredAt(iov, h, h', c, w, n)
    ensures Gather(iov, h, c) == Gather(iov, h', c)
  {
    forall i: nat | i < c
      ensures Slice(iov[i], h) == Slice(iov[i], h')
    {
      StoreElsewhere(iov, h, h', c, w, n, i);
    }
    GatherSame(iov, h, h', c);
  }

  // In the buffer itself the bytes before w stay.
  lemma StoreHere(iov: seq<IOVec>, h: Heap, h': Heap, c: nat, w: nat, n: nat)
    requires Disjoint(iov) && StoredAt(iov, h, h', c, w, n)
    ensures Slice(iov[c], h)[..w] == Slice(iov[c], h')[..w]
  {
    var s, s', v := Slice(iov[c], h)[..w], Slice(iov[c], h')[..w], iov[c];
    assert v.mem in Mems(iov);
    forall k | 0 <= k < w
      ensures s[k] == s'[k]
    {
      var p := v.base + k;
      assert p < v.mem.Length && h[v.mem][p] == s[k] && h'[v.mem][p] == s'[k];
    }
  }

  // Seen from the buffers one after the other, the first k of the stored
  // bytes are appended to what precedes them.
  lemma StoreAppends(iov: seq<IOVec>, h: Heap, h': Heap, c: nat, w: nat, n: nat, k: nat)
    requires Disjoint(iov) && StoredAt(iov, h, h', c, w, n) && k <= n
    ensures Start(iov, c) + w + n <= Capacity(iov)
    ensures Gathered(iov, h')[..Start(iov, c) + w + k] ==
            Gathered(iov, h)[..Start(iov, c) + w] + Slice(iov[c], h')[w..w + k]
  {
    hide Slice, Separate, Gather, Gathered, Start;
    StoreAfter(iov, h, h', c, w, n);
    StoreHere(iov, h, h', c, w, n);
    PrefixUpTo(iov, h, c, w);
    PrefixUpTo(iov, h', c, w + k);
    StartMonotone(iov, c, |iov|);
    MoreOfSlice(Gather(iov, h, c), Slice(iov[c], h), Slice(iov[c], h'), w, k);
  }

  lemma MoreOfSlice(pre: bytes, s: bytes, s': bytes, w: nat, k: nat)
    requires w <= |s| && w + k <= |s'| && s'[..w] == s[..w]
    ensures pre + s'[..w + k] == pre + s[..w] + s'[w..w + k]
  {
    assert s'[..w + k] == s'[..w] + s'[w..w + k];
  }

  // The first bytes of all buffers are those of the buffers before c and the
  // first of c.
  lemma PrefixUpTo(iov: seq<IOVec>, h: Heap, c: nat, k: nat)
    requires Disjoint(iov) && Covers(h, iov) && c < |iov| && k <= iov[c].len
    ensures Start(iov, c) + k <= Capacity(iov)
    ensures Gathered(iov, h)[..Start(iov, c) + k] == Gather(iov, h, c) + Slice(iov[c], h)[..k]
  {
    hide Slice, Separate, Gather;
    GatherAt(iov, h, c, |iov|);
    SplitOff(Gathered(iov, h), Start(iov, c), iov[c].len, k);
  }

  lemma SplitOff(s: bytes, a: nat, n: nat, k: nat)
    requires a + n <= |s| && k <= n
    ensures s[..a + k] == s[..a] + s[a..a + n][..k]
  {}

  lemma PartOfSlice(mem: bytes, base: nat, len: nat, w: nat, k: nat)
    requires base + len <= |mem| && w + k <= len
    ensures mem[base..base + len][w..w + k] == mem[base + w..base + w + k]
  {
    var l, r := mem[base..base + len][w..w + k], mem[base + w..base + w + k];
    assert forall i :: 0 <= i < k ==> l[i] == r[i];
  }

  // The three stores, into buffer c from position w on.
  method PutBytes(iov: seq<IOVec>, c: nat, w: nat, data: bytes)
    requires Disjoint(iov) && c < |iov| && w + |data| <= iov[c].len
    modifies Mems(iov)
    ensures StoredAt(iov, old(Now(iov)), Now(iov), c, w, |data|)
    ensures iov[c].mem[..][iov[c].base + w..iov[c].base + w + |data|] == data
  {
    hide Separate;
    var v := iov[c];
    assert v.mem in Mems(iov);
    Memcpy(v.mem, v.base + w, data);
  }

  method PutSixteen(iov: seq<IOVec>, c: nat, w: nat, input: bytes, len: nat)
    requires Disjoint(iov) && c < |iov| && w + 16 <= iov[c].len && len <= 16 <= |input|
    modifies Mems(iov)
    ensures StoredAt(iov, old(Now(iov)), Now(iov), c, w, 16)
    ensures iov[c].mem[..][iov[c].base + w..iov[c].base + w + len] == input[..len]
  {
    hide Separate;
    var v := iov[c];
    assert v.mem in Mems(iov);
    StoreSixteen(v.mem, v.base + w, input, len);
  }

  method PutCopy(iov: seq<IOVec>, c: nat, at: nat, w: nat, n: nat)
    requires Disjoint(iov) && c < |iov| && at < w && 0 < n && w + n <= iov[c].len
    modifies Mems(iov)
    ensures StoredAt(iov, old(Now(iov)), Now(iov), c, w, n)
    ensures var v := iov[c];
            v.mem[..][..v.base + w + n] == CopyBack(old(v.mem[..])[..v.base + w], w - at, n)
  {
    hide Separate, CopyBack;
    var v := iov[c];
    assert v.mem in Mems(iov);
    IncrementalCopy(v.mem, v.base + at, v.base + w, n);
    assert v.mem[..][..v.base + w + n] == v.mem[..v.base + w + n];
    assert old(v.mem[..])[..v.base + w] == old(v.mem[..v.base + w]);
  }

  class SnappyIOVecWriter {
    const iov: seq<IOVec>
    var currIovIndex_: nat
    var currIovWritten_: nat
    var totalWritten_: nat
    var outputLimit_: nat
    // The arrays before anything was written to them.
    ghost const before: Heap

    ghost predicate Placed()
      reads this
    {
      && Disjoint(iov)
      && currIovIndex_ <= |iov|
      && (currIovIndex_ == |iov| ==> |iov| == 0 && currIovWritten_ == 0)
      && (currIovIndex_ < |iov| ==> currIovWritten_ <= iov[currIovIndex_].len)
      && totalWritten_ == Start(iov, currIovIndex_) + currIovWritten_ <= Capacity(iov)
    }

    // Outside the first `limit` bytes of the buffers nothing has changed, ever.
    ghost predicate Kept(limit: nat)
      reads this, Mems(iov)
    {
      outputLimit_ == limit && Spared(iov, before, Now(iov), limit)
    }

    // Once the expected length is known.  It may exceed the buffers, but
    // there must be a first one to write to.
    ghost predicate Ready()
      reads this, Mems(iov)
    {
      && Placed() && totalWritten_ <= outputLimit_ < 0x1_0000_0000 && Kept(outputLimit_)
      && (outputLimit_ > 0 ==> iov != [])
    }

    ghost function Output(): (out: bytes)
      requires Placed()
      reads this, Mems(iov)
      ensures |out| == totalWritten_
    {
      Gathered(iov, Now(iov))[..totalWritten_]
    }

    ghost function Limit(): int
      reads this
    {
      outputLimit_
    }

    // The buffers together hold the expected length.
    ghost predicate Fits()
      reads this
    {
      outputLimit_ <= Capacity(iov)
    }

    constructor (iov: seq<IOVec>)
      requires Disjoint(iov)
      ensures this.iov == iov && Placed() && Output() == [] && before == Now(iov)
    {
      this.iov, before := iov, Now(iov);
      currIovIndex_, currIovWritten_, totalWritten_ := 0, 0, 0;
      outputLimit_ := 0xFFFF_FFFF_FFFF_FFFF;
    }

    method SetExpectedLength(len: nat)
      requires Placed() && Output() == [] && before == Now(iov) && (len > 0 ==> iov != []) && len < 0x1_0000_0000
      modifies this
      ensures Ready() && Limit() == len && Output() == [] && (Fits() <==> len <= Capacity(iov))
    {
      outputLimit_ := len;
    }

    method CheckLength() returns (ok: bool)
      requires Ready()
      ensures ok <==> Fits() && |Output()| == Limit()
    {
      ok := totalWritten_ == outputLimit_;
    }

    // n bytes were stored at the current position, and k of them count.
    lemma Advanced(h: Heap, n: nat, k: nat)
      requires Placed() && currIovIndex_ < |iov| && k <= n && totalWritten_ + n <= outputLimit_
      requires Spared(iov, before, h, outputLimit_) && StoredAt(iov, h, Now(iov), currIovIndex_, currIovWritten_, n)
      ensures totalWritten_ + n <= Capacity(iov)
      ensures Kept(outputLimit_)
      ensures var w, v := currIovWritten_, iov[currIovIndex_];
              Gathered(iov, Now(iov))[..totalWritten_ + k] ==
              Gathered(iov, h)[..totalWritten_] + v.mem[..][v.base + w..v.base + w + k]
    {
      hide Start, Gathered;
      StoreSpares(iov, before, h, Now(iov), currIovIndex_, currIovWritten_, n, outputLimit_);
      StoreAppends(iov, h, Now(iov), currIovIndex_, currIovWritten_, n, k);
      var v := iov[currIovIndex_];
      PartOfSlice(v.mem[..], v.base, v.len, currIovWritten_, k);
    }

    // One memcpy into the current buffer.
    method WriteHere(data: bytes)
      requires Ready() && currIovIndex_ < |iov|
      requires currIovWritten_ + |data| <= iov[currIovIndex_].len && totalWritten_ + |data| <= outputLimit_
      modifies this, Mems(iov)
      ensures Ready() && Limit() == old(Limit()) && Output() == old(Output()) + data
      ensures currIovIndex_ == old(currIovIndex_)
    {
      hide Start, Gathered, Disjoint, Spared, StoredAt;
      ghost var h := Now(iov);
      PutBytes(iov, currIovIndex_, currIovWritten_, data);
      Advanced(h, |data|, |data|);
      currIovWritten_ := currIovWritten_ + |data|;
      totalWritten_ := totalWritten_ + |data|;
    }

    lemma InMems(i: nat)
      requires Disjoint(iov) && i < |iov|
      ensures iov[i].mem in Mems(iov) && iov[i].base + iov[i].len <= iov[i].mem.Length
    {}

    method FastStore(input: bytes, len: nat)
      requires Ready() && currIovIndex_ < |iov| && len <= 16 <= |input|
      requires currIovWritten_ + 16 <= iov[currIovIndex_].len && totalWritten_ + 16 <= outputLimit_
      modifies this, Mems(iov)
      ensures Ready() && Limit() == old(Limit()) && Output() == old(Output()) + input[..len]
    {
      hide Start, Gathered, Disjoint, Spared, StoredAt;
      ghost var h := Now(iov);
      PutSixteen(iov, currIovIndex_, currIovWritten_, input, len);
      Advanced(h, 16, len);
      currIovWritten_ := currIovWritten_ + len;
      totalWritten_ := totalWritten_ + len;
    }

    // May write 16 bytes for a shorter literal, within the current buffer.
    method TryFastAppend(input: bytes, len: nat) returns (ok: bool)
      requires Ready()
      modifies this, Mems(iov)
      ensures Ready() && Limit() == old(Limit())
      ensures ok <==>
                && len <= 16 && |input| >= 21 && Limit() - |old(Output())| >= 16
                && iov[old(currIovIndex_)].len - old(currIovWritten_) >= 16
      ensures ok ==> Some(Output()) == Step(old(Output()), Limit(), Literal(input[..len]))
      ensures !ok ==> unchanged(this) && unchanged(Mems(iov))
    {
      hide Start, Gathered, Disjoint, Spared;
      var spaceLeft := outputLimit_ - totalWritten_;
      if len <= 16 && |input| >= 16 + kMaximumTagLength && spaceLeft >= 16 {
        if iov[currIovIndex_].len - currIovWritten_ >= 16 {
          FastStore(input, len);
          return true;
        }
      }
      return false;
    }

    // If the last buffer is full, all of them are.
    lemma LastIsFull()
      requires Placed() && currIovIndex_ + 1 == |iov| && currIovWritten_ == iov[currIovIndex_].len
      ensures totalWritten_ == Capacity(iov)
    {}

    // Move on to the next buffer.
    method NextBuffer()
      requires Ready() && currIovIndex_ + 1 < |iov| && currIovWritten_ == iov[currIovIndex_].len
      modifies this`currIovIndex_, this`currIovWritten_
      ensures Ready() && currIovIndex_ == old(currIovIndex_) + 1 && currIovWritten_ == 0 && Output() == old(Output())
    {
      hide Disjoint, Spared, Gathered;
      currIovWritten_ := 0;
      currIovIndex_ := currIovIndex_ + 1;
    }

    // Writes as much as the buffers take, unless the announced length already
    // forbids it.
    method Append(data: bytes) returns (ok: bool)
      requires Ready()
      modifies this, Mems(iov)
      ensures Ready() && Limit() == old(Limit()) && old(currIovIndex_) <= currIovIndex_
      ensures ok <==> |old(Output())| + |data| <= Min(Limit(), Capacity(iov))
      ensures Output() == old(Output()) + data[..Taken(|old(Output())|, |data|)]
      ensures ok ==> Some(Output()) == Step(old(Output()), Limit(), Literal(data))
      ensures Fits() && !ok ==> Step(old(Output()), Limit(), Literal(data)) == None
    {
      hide Start, Gathered, Disjoint, Spared, Capacity;
      if totalWritten_ + |data| > outputLimit_ {
        return false;
      }
      var ip := 0;
      while ip < |data|
        invariant 0 <= ip <= |data| && Ready() && Limit() == old(Limit())
        invariant Output() == old(Output()) + data[..ip]
        invariant old(currIovIndex_) <= currIovIndex_
        decreases |data| - ip, |iov| - currIovIndex_
      {
        if currIovWritten_ >= iov[currIovIndex_].len {
          if currIovIndex_ + 1 >= |iov| {
            LastIsFull();
            return false;
          }
          NextBuffer();
        }
        var toWrite := Min(|data| - ip, iov[currIovIndex_].len - currIovWritten_);
        WriteHere(data[ip..ip + toWrite]);
        assert data[..ip] + data[ip..ip + toWrite] == data[..ip + toWrite];
        ip := ip + toWrite;
      }
      assert data[..ip] == data;
      ok := true;
    }

    // How much of n bytes is written behind `written` others.
    ghost function Taken(written: nat, n: nat): (t: nat)
      requires written <= Capacity(iov)
      reads this
      ensures t <= n
    {
      if written + n > outputLimit_ then 0 else Min(n, Capacity(iov) - written)
    }

    // The position `back` bytes before the end of the output.
    ghost predicate Points(index: nat, at: nat, back: nat)
      requires index < |iov|
      reads this
    {
      back <= totalWritten_ && at <= iov[index].len && Start(iov, index) + at == totalWritten_ - back
    }

    // Locate the buffer from which a copy starts.
    method Locate(offset0: nat) returns (index: nat, at: nat)
      requires Placed() && currIovIndex_ < |iov| && 0 < offset0 <= totalWritten_
      ensures index <= currIovIndex_ && Points(index, at, offset0)
    {
      index, at := currIovIndex_, currIovWritten_;
      var offset := offset0;
      while offset > 0
        invariant index <= currIovIndex_ && at <= iov[index].len && offset > 0
        invariant Start(iov, index) + at - offset == totalWritten_ - offset0
        decreases index, offset
      {
        if at >= offset {
          at := at - offset;
          break;
        }
        offset := offset - at;
        index := index - 1;
        at := iov[index].len;
      }
    }

    // The bytes of a buffer below the end of the output are the output's.
    lemma BufferHolds(index: nat, at: nat, n: nat, back: nat)
      requires Placed() && index < |iov| && Points(index, at, back)
      requires at + n <= iov[index].len && n <= back
      ensures iov[index].base + at + n <= iov[index].mem.Length
      ensures iov[index].mem[..][iov[index].base + at..iov[index].base + at + n] ==
              Output()[totalWritten_ - back..totalWritten_ - back + n]
    {
      hide Gather, Disjoint;
      var all, v := Gathered(iov, Now(iov)), iov[index];
      GatherAt(iov, Now(iov), index, |iov|);
      InMems(index);
      PartOfSlice(v.mem[..], v.base, v.len, at, n);
      PartOfSlice(all, Start(iov, index), v.len, at, n);
      PartOfSlice(all, 0, totalWritten_, totalWritten_ - back, n);
    }

    // A position before the end lies in the current buffer or an earlier one,
    // and in an earlier one what follows it there is already written.
    lemma PointsBefore(index: nat, at: nat, back: nat)
      requires Placed() && index < |iov| && currIovIndex_ < |iov| && Points(index, at, back) && back > 0
      ensures index <= currIovIndex_
      ensures index < currIovIndex_ ==> iov[index].len - at <= back
      ensures index == currIovIndex_ ==> at + back == currIovWritten_
    {
      if index < currIovIndex_ {
        StartMonotone(iov, index, currIovIndex_);
      } else if currIovIndex_ < index {
        StartMonotone(iov, currIovIndex_, index);
      }
    }

    // Copying within the current buffer, byte by byte.
    method CopyHere(at: nat, n: nat)
      requires Ready() && currIovIndex_ < |iov| && at < currIovWritten_ && 0 < n
      requires currIovWritten_ + n <= iov[currIovIndex_].len && totalWritten_ + n <= outputLimit_
      modifies this, Mems(iov)
      ensures Ready() && Limit() == old(Limit()) && currIovIndex_ == old(currIovIndex_)
      ensures 0 < old(currIovWritten_) - at <= |old(Output())|
      ensures Output() == CopyBack(old(Output()), old(currIovWritten_) - at, n)
    {
      hide CopyBack, Start, Gathered, Disjoint, Spared, StoredAt;
      ghost var h, out := Now(iov), Output();
      ghost var v, w := iov[currIovIndex_], currIovWritten_;
      InMems(currIovIndex_);
      BufferHolds(currIovIndex_, 0, w, w);
      PutCopy(iov, currIovIndex_, at, currIovWritten_, n);
      Advanced(h, n, n);
      CopyInSlice(h[v.mem], v.mem[..], v.base, w, w - at, n, out);
      currIovWritten_ := currIovWritten_ + n;
      totalWritten_ := totalWritten_ + n;
    }

    // Append what an earlier buffer holds.  Whether it fits is not looked at:
    // if it does not, all buffers are full afterwards.
    method CopyFromEarlier(index: nat, at: nat, n: nat, ghost offset: nat)
      requires Ready() && index < currIovIndex_ < |iov| && offset > 0
      requires Points(index, at, offset) || totalWritten_ == Capacity(iov)
      requires at + n <= iov[index].len && totalWritten_ + n <= outputLimit_
      modifies this, Mems(iov)
      ensures Ready() && Limit() == old(Limit()) && old(currIovIndex_) <= currIovIndex_ < |iov|
      ensures totalWritten_ == Min(old(totalWritten_) + n, Capacity(iov))
      ensures old(Points(index, at, offset)) && totalWritten_ == old(totalWritten_) + n ==>
                offset <= |old(Output())| && Output() == CopyBack(old(Output()), offset, n)
    {
      hide CopyBack, Start, Gathered, Disjoint, Spared, Capacity;
      var v := iov[index];
      InMems(index);
      var data := v.mem[..][v.base + at..v.base + at + n];
      if Points(index, at, offset) {
        PointsBefore(index, at, offset);
        BufferHolds(index, at, n, offset);
        ShortCopyIsSlice(Output(), offset, n);
      }
      var appended := Append(data);
      assert data[..n] == data;
    }

    // A copy of which len bytes are still to be done goes on reading at
    // position `at` of buffer index, unless all buffers are full.
    ghost predicate Copying(index: nat, at: nat, len: nat, offset: nat)
      reads this
    {
      && index <= currIovIndex_ < |iov| && at <= iov[index].len && totalWritten_ + len <= outputLimit_
      && (len > 0 ==> Points(index, at, offset) || totalWritten_ == Capacity(iov))
    }

    // One round: copy what one buffer holds or takes, or move on to the next
    // one, or find that there is none.
    method CopyRound(index: nat, at: nat, len: nat, ghost offset: nat, ghost out0: bytes, ghost done: nat)
      returns (more: bool, index': nat, at': nat, left: nat)
      requires Ready() && 0 < len && 0 < offset <= |out0| && Copying(index, at, len, offset)
      requires Fits() ==> Output() == CopyBack(out0, offset, done)
      modifies this, Mems(iov)
      ensures Ready() && Limit() == old(Limit()) && left <= len && Copying(index', at', left, offset)
      ensures more ==> left < len || currIovIndex_ + index' > old(currIovIndex_) + index
      ensures !more ==> totalWritten_ == Capacity(iov) && left > 0
      ensures Fits() ==> Output() == CopyBack(out0, offset, done + len - left)
    {
      hide CopyBack, Start, Gathered, Disjoint, Capacity, SnappyIOVecWriter.Kept, SnappyIOVecWriter.Output;
      index', at', left := index, at, len;
      CopyBackSplitUpTo(out0, offset, done, len);
      more := true;
      if index != currIovIndex_ {
        var toCopy := Min(iov[index].len - at, len);
        CopyFromEarlier(index, at, toCopy, offset);
        left := len - toCopy;
        if left > 0 {
          NextStart(index);
          index', at' := index + 1, 0;
        }
      } else {
        var toCopy := Min(iov[currIovIndex_].len - currIovWritten_, len);
        if toCopy == 0 {
          if currIovIndex_ + 1 >= |iov| {
            LastIsFull();
            more := false;
            return;
          }
          NextBuffer();
        } else {
          NotFull();
          PointsBefore(index, at, offset);
          CopyHere(at, toCopy);
          at' := at + toCopy;
          left := len - toCopy;
        }
      }
    }

    // Copy from wherever the source lies, across buffers if need be.
    method AppendFromSelf(offset: uint32, length: nat) returns (ok: bool)
      requires Ready() && length > 0
      modifies this, Mems(iov)
      ensures Ready() && Limit() == old(Limit())
      ensures Fits() ==> (ok <==> 0 < offset <= |old(Output())| && |old(Output())| + length <= Limit())
      ensures Fits() ==>
                Some(Output()) == if ok then Step(old(Output()), Limit(), Copy(offset, length)) else Some(old(Output()))
    {
      hide CopyBack, Start, Gathered, Disjoint, Capacity, SnappyIOVecWriter.Kept, SnappyIOVecWriter.Output;
      if offset > totalWritten_ || offset == 0 {
        return false;
      }
      var spaceLeft := outputLimit_ - totalWritten_;
      if length > spaceLeft {
        return false;
      }
      ghost var out0 := Output();
      var fromIndex: nat, fromAt: nat := Locate(offset);
      var len: nat := length;
      NoCopy(out0, offset);
      while len > 0
        invariant len <= length && Ready() && Limit() == old(Limit()) && Copying(fromIndex, fromAt, len, offset)
        invariant Fits() ==> Output() == CopyBack(out0, offset, length - len)
        decreases len, (|iov| - currIovIndex_) + (|iov| - fromIndex)
      {
        var more;
        more, fromIndex, fromAt, len := CopyRound(fromIndex, fromAt, len, offset, out0, length - len);
        if !more {
          return false;
        }
      }
      ok := true;
    }

    lemma NotFull()
      requires Placed() && currIovIndex_ < |iov| && currIovWritten_ < iov[currIovIndex_].len
      ensures totalWritten_ < Capacity(iov)
    {
      StartMonotone(iov, currIovIndex_, |iov|);
    }

    lemma NextStart(i: nat)
      requires i < |iov|
      ensures Start(iov, i + 1) == Start(iov, i) + iov[i].len
    {}
  }

  lemma NoCopy(out: bytes, offset: nat)
    requires 0 < offset <= |out|
    ensures CopyBack(out, offset, 0) == out
  {}

  // From a partial copy, any further stretch up to the full length.
  lemma CopyBackSplitUpTo(out: bytes, offset: nat, a: nat, max: nat)
    requires 0 < offset <= |out|
    ensures forall n :: 0 <= n <= max ==> CopyBack(CopyBack(out, offset, a), offset, n) == CopyBack(out, offset, a + n)
  {
    forall n | 0 <= n <= max
      ensures CopyBack(CopyBack(out, offset, a), offset, n) == CopyBack(out, offset, a + n)
    {
      CopyBackSplit(out, offset, a, n);
    }
  }

  // A copy within one buffer, which starts at `base` in its array, seen as a
  // copy within the output, which ends with the first w bytes of the buffer.
  lemma CopyInSlice(mem: bytes, mem': bytes, base: nat, w: nat, d: nat, n: nat, out: bytes)
    requires base + w <= |mem| && base + w + n <= |mem'| && 0 < d <= w <= |out|
    requires out[|out| - w..] == mem[base..base + w]
    requires mem'[..base + w + n] == CopyBack(mem[..base + w], d, n)
    ensures CopyBack(out, d, n) == out + mem'[base + w..base + w + n]
  {
    hide CopyBack;
    var tail := mem[base..base + w];
    CopyBehind(mem, mem', base, base + w, d, n);
    CopyBackPrefix(out[..|out| - w], tail, d, n);
    assert out[..|out| - w] + tail == out;
    CopyBackExtends(tail, d, n);
    var copied := CopyBack(tail, d, n);
    assert mem'[base + w..base + w + n] == copied[w..];
    assert out[..|out| - w] + copied == out[..|out| - w] + tail + copied[w..];
  }

  lemma CopyBackExtends(out: bytes, d: nat, n: nat)
    requires 0 < d <= |out|
    ensures CopyBack(out, d, n)[..|out|] == out
  {}

  // Up to `offset` bytes, a copy appends a slice of the output.
  lemma ShortCopyIsSlice(out: bytes, offset: nat, n: nat)
    requires 0 < offset <= |out| && n <= offset
    ensures CopyBack(out, offset, n) == out + out[|out| - offset..|out| - offset + n]
  {
    var l := CopyBack(out, offset, n)[|out|..];
    var r := out[|out| - offset..|out| - offset + n];
    forall i | 0 <= i < n
      ensures l[i] == r[i]
    {
      SmallMod(i, offset);
    }
    assert CopyBack(out, offset, n)[..|out|] == out;
    assert l == r;
    assert CopyBack(out, offset, n) == CopyBack(out, offset, n)[..|out|] + l;
  }
}
