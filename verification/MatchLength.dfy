// Longest common prefix of two positions in one buffer, found a word at a
// time.  The two positions may overlap: s1 and s2 index the same bytes.

module MatchLength {
  import opened Machine
  import opened BitScan

  // n bytes match at s1 and s2.
  ghost predicate Matches(buf: seq<byte>, s1: nat, s2: nat, n: nat) {
    s1 + n <= |buf| && s2 + n <= |buf| && buf[s1..s1 + n] == buf[s2..s2 + n]
  }

  // n is the largest count of matching bytes that stays below limit.
  ghost predicate IsMatchLength(buf: seq<byte>, s1: nat, s2: nat, limit: nat, n: nat) {
    && s2 + n <= limit <= |buf|
    && Matches(buf, s1, s2, n)
    && (s2 + n < limit && s1 + n < |buf| ==> buf[s1 + n] != buf[s2 + n])
  }

  lemma MatchesAt(buf: seq<byte>, s1: nat, s2: nat, n: nat, k: nat)
    requires Matches(buf, s1, s2, n) && k < n
    ensures buf[s1 + k] == buf[s2 + k]
  {
    assert buf[s1..s1 + n][k] == buf[s2..s2 + n][k];
  }

  // The match length is the one number that separates the matching prefixes
  // from the others.
  lemma MatchLengthIsMaximal(buf: seq<byte>, s1: nat, s2: nat, limit: nat, n: nat, m: nat)
    requires s1 <= s2 && IsMatchLength(buf, s1, s2, limit, n) && s2 + m <= limit
    ensures Matches(buf, s1, s2, m) <==> m <= n
  {
    if m <= n {
      assert buf[s1..s1 + m] == buf[s1..s1 + n][..m];
      assert buf[s2..s2 + m] == buf[s2..s2 + n][..m];
    } else if Matches(buf, s1, s2, m) {
      MatchesAt(buf, s1, s2, m, n);
      assert false;
    }
  }

  // The match length as a function.
  function MatchLen(buf: seq<byte>, s1: nat, s2: nat, limit: nat): (n: nat)
    requires s1 <= s2 <= limit <= |buf|
    ensures s2 + n <= limit
    decreases limit - s2
  {
    if s2 < limit && buf[s1] == buf[s2] then 1 + MatchLen(buf, s1 + 1, s2 + 1, limit) else 0
  }

  lemma {:induction false} MatchLenIsMatchLength(buf: seq<byte>, s1: nat, s2: nat, limit: nat)
    requires s1 <= s2 <= limit <= |buf|
    ensures IsMatchLength(buf, s1, s2, limit, MatchLen(buf, s1, s2, limit))
    decreases limit - s2
  {
    hide IsMatchLength;
    if s2 < limit && buf[s1] == buf[s2] {
      MatchLenIsMatchLength(buf, s1 + 1, s2 + 1, limit);
      OneLonger(buf, s1, s2, limit, MatchLen(buf, s1 + 1, s2 + 1, limit));
    } else {
      ByteStep(buf, s1, s2, limit, 0);
    }
  }

  lemma OneLonger(buf: seq<byte>, s1: nat, s2: nat, limit: nat, n: nat)
    requires s1 <= s2 < limit <= |buf| && buf[s1] == buf[s2] && IsMatchLength(buf, s1 + 1, s2 + 1, limit, n)
    ensures IsMatchLength(buf, s1, s2, limit, 1 + n)
  {
    hide Matches;
    NothingMatched(buf, s1, s2);
    ByteStep(buf, s1, s2, limit, 0);
    MatchExtend(buf, s1, s2, 1, n);
  }

  lemma MatchLengthUnique(buf: seq<byte>, s1: nat, s2: nat, limit: nat, n: nat)
    requires s1 <= s2 && IsMatchLength(buf, s1, s2, limit, n)
    ensures n == MatchLen(buf, s1, s2, limit)
  {
    var m := MatchLen(buf, s1, s2, limit);
    MatchLenIsMatchLength(buf, s1, s2, limit);
    MatchLengthIsMaximal(buf, s1, s2, limit, n, m);
    MatchLengthIsMaximal(buf, s1, s2, limit, m, n);
  }

  lemma MatchExtend(buf: seq<byte>, s1: nat, s2: nat, n: nat, k: nat)
    requires Matches(buf, s1, s2, n) && Matches(buf, s1 + n, s2 + n, k)
    ensures Matches(buf, s1, s2, n + k)
  {
    assert buf[s1..s1 + n + k] == buf[s1..s1 + n] + buf[s1 + n..s1 + n + k];
    assert buf[s2..s2 + n + k] == buf[s2..s2 + n] + buf[s2 + n..s2 + n + k];
  }

  // Words agree on their low k bytes exactly when k bytes match.
  lemma LowBytes(buf: seq<byte>, s1: nat, s2: nat, n: nat, k: nat)
    requires s1 + n <= |buf| && s2 + n <= |buf| && k <= n
    ensures Load(buf, s1, n) % Pow2(8 * k) == Load(buf, s2, n) % Pow2(8 * k) <==> Matches(buf, s1, s2, k)
  {
    hide Pow2, Load;
    LoadMaskShift(buf, s1, n, k);
    LoadMaskShift(buf, s2, n, k);
    LoadEqual(buf, s1, buf, s2, k);
  }

  // The lowest set bit of the exclusive or lies in the lowest byte on which
  // the words do not agree.
  lemma DifferenceInByte(x: nat, y: nat, r: nat)
    requires IsLowestSetBit(Xor(x, y), r)
    ensures x % Pow2(8 * (r / 8)) == y % Pow2(8 * (r / 8))
    ensures x % Pow2(8 * (r / 8 + 1)) != y % Pow2(8 * (r / 8 + 1))
  {
    hide Pow2, Xor;
    XorLowBits(x, y, r);
    XorLowBits(x, y, r + 1);
    LowBitsDown(x, y, r, 8 * (r / 8));
    LowBitsDown(x, y, 8 * (r / 8 + 1), r + 1);
  }

  // The lowest set bit of the exclusive or of two words lies in the first
  // byte where they differ.
  lemma FirstDifference(buf: seq<byte>, s1: nat, s2: nat, n: nat, r: nat)
    requires s1 + n <= |buf| && s2 + n <= |buf| && r < 8 * n
    requires IsLowestSetBit(Xor(Load(buf, s1, n), Load(buf, s2, n)), r)
    ensures Matches(buf, s1, s2, r / 8)
    ensures buf[s1 + r / 8] != buf[s2 + r / 8]
  {
    hide Pow2, Xor, Load, IsLowestSetBit;
    var k := r / 8;
    DifferenceInByte(Load(buf, s1, n), Load(buf, s2, n), r);
    LowBytes(buf, s1, s2, n, k);
    LowBytes(buf, s1, s2, n, k + 1);
    OneMore(buf, s1, s2, k);
  }

  lemma OneMore(buf: seq<byte>, s1: nat, s2: nat, n: nat)
    requires Matches(buf, s1, s2, n) && s1 + n < |buf| && s2 + n < |buf|
    ensures Matches(buf, s1, s2, n + 1) <==> buf[s1 + n] == buf[s2 + n]
  {
    assert buf[s1..s1 + (n + 1)] == buf[s1..s1 + n] + [buf[s1 + n]];
    assert buf[s2..s2 + (n + 1)] == buf[s2..s2 + n] + [buf[s2 + n]];
  }

  lemma LowBitsDown(x: nat, y: nat, hi: nat, lo: nat)
    requires lo <= hi
    ensures x % Pow2(hi) == y % Pow2(hi) ==> x % Pow2(lo) == y % Pow2(lo)
  {
    hide Pow2;
    Pow2Add(lo, hi - lo);
    ModOfMultiple(x, Pow2(lo), Pow2(hi - lo));
    ModOfMultiple(y, Pow2(lo), Pow2(hi - lo));
  }

  lemma XorOfWords(buf: seq<byte>, s1: nat, s2: nat, n: nat)
    requires s1 + n <= |buf| && s2 + n <= |buf|
    requires Load(buf, s1, n) != Load(buf, s2, n)
    ensures 0 < Xor(Load(buf, s1, n), Load(buf, s2, n)) < Pow2(8 * n)
  {
    hide Xor, Load;
    var x, y := Load(buf, s1, n), Load(buf, s2, n);
    LoadBound(buf, s1, n);
    LoadBound(buf, s2, n);
    XorBound(x, y, 8 * n);
    XorLowBits(x, y, 8 * n);
    SmallMod(x, Pow2(8 * n));
    SmallMod(y, Pow2(8 * n));
    SmallMod(Xor(x, y), Pow2(8 * n));
  }

  // Equal words extend the match.
  lemma EqualWords(buf: seq<byte>, s1: nat, s2: nat, m: nat, n: nat)
    requires Matches(buf, s1, s2, m) && s1 + m + n <= |buf| && s2 + m + n <= |buf|
    requires Load(buf, s2 + m, n) == Load(buf, s1 + m, n)
    ensures Matches(buf, s1, s2, m + n)
  {
    LoadEqual(buf, s2 + m, buf, s1 + m, n);
    MatchExtend(buf, s1, s2, m, n);
  }

  // Unequal words end it, at the lowest bit where they differ.
  lemma UnequalWords(buf: seq<byte>, s1: nat, s2: nat, limit: nat, m: nat, n: nat, r: nat)
    requires Matches(buf, s1, s2, m) && s1 <= s2 && s2 + m + n <= limit <= |buf| && r < 8 * n
    requires IsLowestSetBit(Xor(Load(buf, s2 + m, n), Load(buf, s1 + m, n)), r)
    ensures IsMatchLength(buf, s1, s2, limit, m + r / 8)
  {
    hide Xor, Load, IsLowestSetBit;
    FirstDifference(buf, s2 + m, s1 + m, n, r);
    MatchExtend(buf, s1, s2, m, r / 8);
  }

  // The byte loop's step.
  lemma ByteStep(buf: seq<byte>, s1: nat, s2: nat, limit: nat, m: nat)
    requires Matches(buf, s1, s2, m) && s1 <= s2 && s2 + m <= limit <= |buf|
    ensures s2 + m < limit && buf[s1 + m] == buf[s2 + m] ==> Matches(buf, s1, s2, m + 1)
    ensures s2 + m == limit || buf[s1 + m] != buf[s2 + m] ==> IsMatchLength(buf, s1, s2, limit, m)
  {
    if s2 + m < limit && buf[s1 + m] == buf[s2 + m] {
      MatchExtend(buf, s1, s2, m, 1);
    }
  }

  lemma NothingMatched(buf: seq<byte>, s1: nat, s2: nat)
    requires s1 <= s2 <= |buf|
    ensures Matches(buf, s1, s2, 0)
  {}

  // The x86-64 version: eight bytes at a time, then the byte loop.  The buffer
  // ends at the limit, so nothing at or past the limit can be read.
  method FindMatchLength64(buf: seq<byte>, s1: nat, s2start: nat, s2limit: nat) returns (matched: nat)
    requires s1 <= s2start <= s2limit == |buf|
    ensures IsMatchLength(buf, s1, s2start, s2limit, matched)
  {
    hide Load, Xor, Pow2, IsLowestSetBit, Matches, IsMatchLength;
    NothingMatched(buf, s1, s2start);
    Pow2Values();
    matched := 0;
    var s2 := s2start;
    while s2 <= s2limit - 8
      invariant s2 == s2start + matched <= s2limit
      invariant Matches(buf, s1, s2start, matched)
    {
      if Load(buf, s2, 8) == Load(buf, s1 + matched, 8) {
        EqualWords(buf, s1, s2start, matched, 8);
        s2 := s2 + 8;
        matched := matched + 8;
      } else {
        XorOfWords(buf, s2, s1 + matched, 8);
        var x: uint64 := Xor(Load(buf, s2, 8), Load(buf, s1 + matched, 8));
        var matchingBits := FindLSBSetNonZero64(x);
        UnequalWords(buf, s1, s2start, s2limit, matched, 8, matchingBits);
        matched := matched + matchingBits / 8;
        return;
      }
    }
    while s2 < s2limit
      invariant s2 == s2start + matched <= s2limit
      invariant Matches(buf, s1, s2start, matched)
    {
      ByteStep(buf, s1, s2start, s2limit, matched);
      if buf[s1 + matched] == buf[s2] {
        s2 := s2 + 1;
        matched := matched + 1;
      } else {
        return;
      }
    }
    ByteStep(buf, s1, s2start, s2limit, matched);
  }

  // The generic version: four bytes at a time.
  method FindMatchLength32(buf: seq<byte>, s1: nat, s2start: nat, s2limit: nat) returns (matched: nat)
    requires s1 <= s2start <= s2limit == |buf|
    ensures IsMatchLength(buf, s1, s2start, s2limit, matched)
  {
    hide Load, Xor, Pow2, IsLowestSetBit, Matches, IsMatchLength;
    NothingMatched(buf, s1, s2start);
    Pow2Values();
    matched := 0;
    var s2 := s2start;
    while s2 <= s2limit - 4 && Load(buf, s2, 4) == Load(buf, s1 + matched, 4)
      invariant s2 == s2start + matched <= s2limit
      invariant Matches(buf, s1, s2start, matched)
    {
      EqualWords(buf, s1, s2start, matched, 4);
      s2 := s2 + 4;
      matched := matched + 4;
    }
    if s2 <= s2limit - 4 {
      XorOfWords(buf, s2, s1 + matched, 4);
      var x: uint32 := Xor(Load(buf, s2, 4), Load(buf, s1 + matched, 4));
      var matchingBits := FindLSBSetNonZero(x);
      UnequalWords(buf, s1, s2start, s2limit, matched, 4, matchingBits);
      matched := matched + matchingBits / 8;
    } else {
      while s2 < s2limit && buf[s1 + matched] == buf[s2]
        invariant s2 == s2start + matched <= s2limit
        invariant Matches(buf, s1, s2start, matched)
      {
        ByteStep(buf, s1, s2start, s2limit, matched);
        s2 := s2 + 1;
        matched := matched + 1;
      }
      ByteStep(buf, s1, s2start, s2limit, matched);
    }
  }
}
