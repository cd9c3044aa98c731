// Stores into a writable buffer: block copies, the 64-bit copy, and the two
// loops the decompressor expands back-references with.

module Memory {
  import opened Machine
  import opened Lz77

  // Nothing outside [lo, hi) differs from before.
  twostate predicate OnlyBetween(buf: array<byte>, lo: int, hi: int)
    reads buf
  {
    forall i :: 0 <= i < buf.Length && !(lo <= i < hi) ==> buf[i] == old(buf[i])
  }

  // memcpy from memory that does not overlap the buffer.
  method Memcpy(buf: array<byte>, op: nat, data: bytes)
    requires op + |data| <= buf.Length
    modifies buf
    ensures buf[op..op + |data|] == data
    ensures OnlyBetween(buf, op, op + |data|)
  {
    forall i | op <= i < op + |data| {
      buf[i] := data[i - op];
    }
  }

  // Two 8-byte stores, of which the first len bytes count.
  method StoreSixteen(buf: array<byte>, ptr: nat, input: bytes, len: nat)
    requires len <= 16 <= |input| && ptr + 16 <= buf.Length
    modifies buf
    ensures buf[ptr..ptr + len] == input[..len]
    ensures OnlyBetween(buf, ptr, ptr + 16)
  {
    Memcpy(buf, ptr, input[..8]);
    Memcpy(buf, ptr + 8, input[8..16]);
    assert buf[ptr..ptr + 8] == input[..8];
    assert buf[ptr + 8..ptr + 16] == input[8..16];
    assert buf[ptr..ptr + 16] == buf[ptr..ptr + 8] + buf[ptr + 8..ptr + 16];
    assert input[..16] == input[..8] + input[8..16];
    assert buf[ptr..ptr + len] == buf[ptr..ptr + 16][..len];
    assert input[..len] == input[..16][..len];
  }

  // UnalignedCopy64 within one buffer: the load completes before the store.
  method UnalignedCopy64(buf: array<byte>, src: nat, op: nat)
    requires src + 8 <= buf.Length && op + 8 <= buf.Length
    modifies buf
    ensures forall i :: op <= i < op + 8 ==> buf[i] == old(buf[src + (i - op)])
    ensures OnlyBetween(buf, op, op + 8)
  {
    forall i | op <= i < op + 8 {
      buf[i] := buf[src + (i - op)];
    }
  }

  // IncrementalCopy: one byte at a time.
  method IncrementalCopy(buf: array<byte>, src: nat, op: nat, len: nat)
    requires src < op && 0 < len && op + len <= buf.Length
    modifies buf
    ensures buf[..op + len] == CopyBack(old(buf[..op]), op - src, len)
    ensures OnlyBetween(buf, op, op + len)
  {
    ghost var d := op - src;
    var s, o, left := src, op, len;
    while true
      invariant 0 < left <= len && o - s == d && o + left == op + len
      invariant forall i :: op <= i < o ==> buf[i] == buf[i - d]
      invariant OnlyBetween(buf, op, op + len)
      decreases left
    {
      buf[o] := buf[s];
      o, s := o + 1, s + 1;
      left := left - 1;
      if left == 0 { break; }
    }
    RepeatedIsCopy(buf[..op + len], old(buf[..op]), d, len);
  }

  lemma RepeatedIsCopy(r: bytes, out: bytes, d: nat, len: nat)
    requires 0 < d <= |out| && |r| == |out| + len && r[..|out|] == out
    requires forall i :: |out| <= i < |r| ==> r[i] == r[i - d]
    ensures r == CopyBack(out, d, len)
  {
    RepeatsIsCopyBack(r, out, d, len);
    assert r[..|out| + len] == r;
  }

  const kMaxIncrementCopyOverflow := 10

  // The position within the pattern before `from` that position i repeats.
  ghost function Phase(i: int, from: nat, d: nat): (p: nat)
    requires 0 < d <= from
    ensures from - d <= p < from
  {
    from - d + (i - from) % d
  }

  // From `from` on, the bytes repeat the d bytes before it.
  ghost predicate Cyclic(s: bytes, from: nat, d: nat, to: nat)
    requires 0 < d <= from && from <= to <= |s|
  {
    forall i {:trigger s[i]} :: from <= i < to ==> s[i] == s[Phase(i, from, d)]
  }

  // IncrementalCopyFastPath: eight bytes at a time, first doubling the
  // pattern until source and destination are eight bytes apart.  It may
  // scribble up to ten bytes past the copy.
  method IncrementalCopyFastPath(buf: array<byte>, srcStart: nat, opStart: nat, len: nat)
    requires srcStart < opStart && 0 < len && opStart + len + kMaxIncrementCopyOverflow <= buf.Length
    modifies buf
    ensures buf[..opStart + len] == CopyBack(old(buf[..opStart]), opStart - srcStart, len)
    ensures OnlyBetween(buf, opStart, opStart + len + 10)
  {
    hide CopyBack, Cyclic;
    ghost var d := opStart - srcStart;
    var src, op := srcStart, opStart;
    var left: int := len;
    NothingCopied(buf[..], opStart, d);
    while op - src < 8
      invariant src == srcStart && op + left == opStart + len
      invariant op - src == d || op - src == 2 * d || op - src == 4 * d || op - src == 8 * d
      invariant op > opStart ==> op - src < 16
      invariant Cyclic(buf[..], opStart, d, op)
      invariant OnlyBetween(buf, opStart, opStart + len + kMaxIncrementCopyOverflow)
      decreases 8 - (op - src)
    {
      label before:
      UnalignedCopy64(buf, src, op);
      PowersDivide(op - src, d);
      ExtendPattern(old@before(buf[..]), buf[..], src, op, opStart, d, op - src);
      left := left - (op - src);
      op := op + (op - src);
    }
    PowersDivide(op - src, d);
    while left > 0
      invariant op + left == opStart + len && -8 <= left && 8 <= op - src && (op - src) % d == 0 && srcStart <= src
      invariant Cyclic(buf[..], opStart, d, op)
      invariant OnlyBetween(buf, opStart, opStart + len + kMaxIncrementCopyOverflow)
    {
      label before:
      UnalignedCopy64(buf, src, op);
      ExtendPattern(old@before(buf[..]), buf[..], src, op, opStart, d, 8);
      src := src + 8;
      op := op + 8;
      left := left - 8;
    }
    CyclicIsCopy(buf[..], old(buf[..]), opStart, d, len, op);
  }

  lemma NothingCopied(s: bytes, from: nat, d: nat)
    requires 0 < d <= from <= |s|
    ensures Cyclic(s, from, d, from)
  {}

  lemma PowersDivide(x: nat, d: nat)
    requires d > 0 && (x == d || x == 2 * d || x == 4 * d || x == 8 * d)
    ensures x % d == 0
  {
    ModUnique(x, d, if x == d then 1 else if x == 2 * d then 2 else if x == 4 * d then 4 else 8, 0);
  }

  // Copying n <= op - src bytes from src to op continues a pattern whose
  // length divides op - src.
  lemma ExtendPattern(before: bytes, after: bytes, src: nat, op: nat, from: nat, d: nat, n: nat)
    requires |before| == |after| && 0 < d <= from && from <= op && op + n <= |after|
    requires from - d <= src < op && (op - src) % d == 0 && n <= op - src
    requires forall i :: 0 <= i < op ==> after[i] == before[i]
    requires forall i :: op <= i < op + n ==> after[i] == before[src + (i - op)]
    requires Cyclic(before, from, d, op)
    ensures Cyclic(after, from, d, op + n)
  {
    hide Phase;
    forall i {:trigger after[i]} | from <= i < op + n
      ensures after[i] == after[Phase(i, from, d)]
    {
      if i >= op {
        SamePhase(i, src + (i - op), from, d);
      }
    }
  }

  // Positions a multiple of d apart are the same place in the pattern.
  lemma SamePhase(i: nat, k: nat, from: nat, d: nat)
    requires 0 < d <= from && from - d <= k <= i && (i - k) % d == 0
    ensures Phase(i, from, d) == if k < from then k else Phase(k, from, d)
  {
    var q := (i - k) / d;
    DivMod(i - k, d);
    ModShift(k - from, q, d);
    assert d * q + (k - from) == i - from;
    if k < from {
      ModUnique(k - from, d, -1, k - from + d);
    }
  }

  lemma CyclicIsCopy(after: bytes, before: bytes, from: nat, d: nat, len: nat, to: nat)
    requires |before| == |after| && 0 < d <= from && from + len <= to <= |after|
    requires after[..from] == before[..from]
    requires Cyclic(after, from, d, to)
    ensures after[..from + len] == CopyBack(before[..from], d, len)
  {
    var l, r := after[..from + len], CopyBack(before[..from], d, len);
    forall i | 0 <= i < from + len
      ensures l[i] == r[i]
    {
      if i < from {
        assert l[i] == after[..from][i];
      } else {
        var j := Phase(i, from, d);
        assert l[i] == after[i] == after[j] == after[..from][j];
      }
    }
  }
}
