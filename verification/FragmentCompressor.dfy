// CompressFragment as it runs: an input block, an output buffer it scribbles
// into, and a hash table of 16-bit positions.

module FragmentCompressor {
  import opened Machine
  import opened BitScan
  import opened Lz77
  import opened MatchLength
  import opened TagFormat
  import opened Memory
  import opened Emit
  import opened MatchFinder
  import opened FragmentCode

  function MaxCompressedLength(n: nat): nat {
    32 + n + n / 6
  }

  // What compressing n bytes of one block can write, scribbling included.
  function FragmentBound(n: nat): nat {
    n + n / 61 + 1
  }

  lemma BoundAdds(a: nat, b: nat, n: nat)
    requires a + b <= n
    ensures FragmentBound(a) + b + b / 61 <= FragmentBound(a + b) <= FragmentBound(n)
  {
    QuotientsAdd(a, b);
    QuotientsAdd(a + b, n - (a + b));
  }

  // The documented output size covers it.
  lemma BoundIsEnough(n: nat)
    ensures FragmentBound(n) <= MaxCompressedLength(n)
  {}

  function HashBytes(bytes: nat, shift: nat): nat {
    QuotientNonNegative(bytes * 0x1e35a7bd % 0x1_0000_0000, Pow2(shift));
    bytes * 0x1e35a7bd % 0x1_0000_0000 / Pow2(shift)
  }

  function HashWith(shift: nat): HashFunction {
    (w: nat) => HashBytes(w, shift)
  }

  function Hash(p: bytes, i: nat, shift: nat): nat
    requires i + 4 <= |p|
  {
    HashBytes(Load(p, i, 4), shift)
  }

  // With shift derived from a power-of-two table size, hashes stay in the
  // table.
  lemma HashInTable(bits: nat)
    requires bits <= 32
    ensures HashesInto(HashWith(32 - bits), Pow2(bits))
  {
    hide Pow2;
    var hash := HashWith(32 - bits);
    forall w: nat
      ensures hash(w) < Pow2(bits)
    {
      var x, p := w * 0x1e35a7bd % 0x1_0000_0000, Pow2(32 - bits);
      Pow2Values();
      Pow2Add(bits, 32 - bits);
      DivMod(x, p);
      MulStrict(x / p, Pow2(bits), p);
    }
  }

  // The multiplier is odd, so multiplication modulo 2^32 has an inverse.
  lemma Unmultiply(x: uint32)
    ensures x * 0x1e35a7bd % 0x1_0000_0000 * 0x22b54b95 % 0x1_0000_0000 == x
  {
    ModTimes(x * 0x1e35a7bd, 0x22b54b95, 0x1_0000_0000);
    assert x * 0x1e35a7bd * 0x22b54b95 == 0x1_0000_0000 * (68715810 * x) + x;
    ModUnique(x * 0x1e35a7bd * 0x22b54b95, 0x1_0000_0000, 68715810 * x, x);
  }

  lemma Unshifted(x: uint32)
    ensures HashBytes(x, 0) == x * 0x1e35a7bd % 0x1_0000_0000
  {
    assert Pow2(0) == 1;
  }

  lemma AddMultiples(a: nat, b: nat, m: nat)
    requires m > 0
    ensures (a % m + b % m) % m == (a + b) % m
  {
    assert a == m * (a / m) + a % m && b == m * (b / m) + b % m;
    assert a + b == m * (a / m + b / m) + (a % m + b % m);
    ModShift(a % m + b % m, a / m + b / m, m);
  }

  // Before it is shifted, the hash is a linear bijection of 32-bit words,
  // given by the hash of 1; the shift leaves its highest bits.
  lemma HashIsMultiplication(x: uint32, y: uint32, bits: nat)
    requires bits <= 32
    ensures HashBytes(1, 0) == 0x1e35a7bd
    ensures HashBytes((x + y) % 0x1_0000_0000, 0) == (HashBytes(x, 0) + HashBytes(y, 0)) % 0x1_0000_0000
    ensures HashBytes(x, 0) == HashBytes(y, 0) ==> x == y
    ensures HashBytes(x, 32 - bits) == HashBytes(x, 0) / Pow2(32 - bits)
  {
    hide HashBytes, Pow2;
    Unshifted(1);
    HashShifts(x, 32 - bits);
    HashAdds(x, y);
    HashInjective(x, y);
  }

  lemma HashInjective(x: uint32, y: uint32)
    ensures HashBytes(x, 0) == HashBytes(y, 0) ==> x == y
  {
    hide HashBytes;
    Unshifted(x);
    Unshifted(y);
    Unmultiply(x);
    Unmultiply(y);
  }

  lemma HashShifts(x: uint32, shift: nat)
    ensures HashBytes(x, shift) == HashBytes(x, 0) / Pow2(shift)
  {
    HashOf(x, shift);
    hide HashBytes, Pow2;
    Unshifted(x);
  }

  lemma HashOf(x: uint32, shift: nat)
    ensures HashBytes(x, shift) == x * 0x1e35a7bd % 0x1_0000_0000 / Pow2(shift)
  {}

  lemma HashAdds(x: uint32, y: uint32)
    ensures HashBytes((x + y) % 0x1_0000_0000, 0) == (HashBytes(x, 0) + HashBytes(y, 0)) % 0x1_0000_0000
  {
    hide HashBytes;
    Unshifted(x);
    Unshifted(y);
    Unshifted((x + y) % 0x1_0000_0000);
    ModTimes(x + y, 0x1e35a7bd, 0x1_0000_0000);
    AddMultiples(x * 0x1e35a7bd, y * 0x1e35a7bd, 0x1_0000_0000);
  }

  lemma Log2OfPow2(bits: nat, log: int)
    requires 0 <= log && Pow2(log) <= Pow2(bits) < Pow2(log + 1)
    ensures log == bits
  {
    if log > bits {
      Pow2Monotone(bits + 1, log);
    } else if log < bits {
      Pow2Monotone(log + 1, bits);
    }
  }

  // GetUint32AtOffset(GetEightBytesAt(p + i), offset).
  function GetUint32AtOffset(v: nat, offset: nat): nat
    requires offset <= 4
  {
    v / Pow2(8 * offset) % 0x1_0000_0000
  }

  // Extracting from one wide load equals an overlapping narrow load.
  lemma WideLoad(p: bytes, i: nat, offset: nat)
    requires i + 8 <= |p| && offset <= 4
    ensures GetUint32AtOffset(Load(p, i, 8), offset) == Load(p, i + offset, 4)
  {
    hide Load, Pow2;
    Pow2Values();
    LoadMaskShift(p, i, 8, offset);
    LoadMaskShift(p, i + offset, 8 - offset, 4);
  }

  // ------------------------------------------------------------------
  // Step 1
  // ------------------------------------------------------------------

  // How far k probes without a match have moved the scan.
  function ProbeDistance(k: nat): nat {
    if k == 0 then 0 else ProbeDistance(k - 1) + (32 + (k - 1)) / 32
  }

  // The first 32 probes look at every byte, the next 32 at every other one,
  // and so on.
  lemma {:induction false} ProbeDistanceClosedForm(j: nat, r: nat)
    requires r <= 32
    ensures ProbeDistance(32 * j + r) == 16 * j * (j + 1) + r * (j + 1)
    decreases j, r
  {
    if r > 0 {
      ProbeDistanceClosedForm(j, r - 1);
      assert (32 + (32 * j + r - 1)) / 32 == j + 1;
      MulSuccessor(r - 1, j + 1);
    } else if j > 0 {
      ProbeDistanceClosedForm(j - 1, 32);
      assert 32 * (j - 1) + 32 == 32 * j + r;
      NextTriangle(j);
    }
  }

  lemma MulSuccessor(a: int, b: int)
    ensures a * b + b == (a + 1) * b
  {}

  lemma NextTriangle(j: int)
    ensures 16 * (j - 1) * (j - 1 + 1) + 32 * (j - 1 + 1) == 16 * j * (j + 1) + 0 * (j + 1)
  {}

  // One probe.
  lemma ProbeStep(input: bytes, hash: HashFunction, table: seq<nat>, ip: nat, skip: nat)
    requires Probing(input, hash, table, ip) && skip >= 32
    ensures var next := ip + skip / 32;
            if next > |input| - kInputMarginBytes then
              Scan(input, hash, table, ip, skip) == None && FailedProbes(input, hash, table, ip, skip) == 0
            else
              var h := hash(Load(input, ip, 4));
              h < |table| && table[h] < ip &&
              var after := table[h := ip];
              if Load(input, ip, 4) == Load(input, table[h], 4) then
                && Scan(input, hash, table, ip, skip) == Some(Found(ip, table[h], after))
                && FailedProbes(input, hash, table, ip, skip) == 0
              else
                && Probing(input, hash, after, next)
                && Scan(input, hash, table, ip, skip) == Scan(input, hash, after, next, skip + 1)
                && FailedProbes(input, hash, table, ip, skip) == 1 + FailedProbes(input, hash, after, next, skip + 1)
  {
    hide Load;
  }

  // Scan forward for a four-byte match; found is false if the scan gets
  // close to the end of the block.  probes lookups fail on the way, and they
  // alone determine how far the scan has come.
  method ScanForMatch(input: bytes, shift: nat, table: array<uint16>, ghost size: nat, start: nat, startHash: nat)
    returns (found: bool, ip: nat, candidate: nat, ghost probes: nat)
    requires size <= table.Length && Probing(input, HashWith(shift), table[..size], start)
    requires startHash == Hash(input, start, shift)
    modifies table
    ensures match Scan(input, HashWith(shift), old(table[..size]), start, 32) {
              case None => !found
              case Some(f) => found && f == Found(ip, candidate, table[..size])
            }
    ensures probes == FailedProbes(input, HashWith(shift), old(table[..size]), start, 32)
    ensures ip == start + ProbeDistance(probes)
  {
    hide Load, HashBytes, Scan, FailedProbes, TableBelow;
    ghost var hash := HashWith(shift);
    var ipLimit := |input| - kInputMarginBytes;
    var skip, nextIp, nextHash := 32, start, startHash;
    ip, candidate := start, 0;
    while true
      invariant 32 <= skip && start <= nextIp && nextIp == start + ProbeDistance(skip - 32)
      invariant Probing(input, hash, table[..size], nextIp)
      invariant nextHash == Hash(input, nextIp, shift)
      invariant Scan(input, hash, old(table[..size]), start, 32) == Scan(input, hash, table[..size], nextIp, skip)
      invariant FailedProbes(input, hash, old(table[..size]), start, 32) ==
                skip - 32 + FailedProbes(input, hash, table[..size], nextIp, skip)
      decreases |input| - nextIp
    {
      ip, probes := nextIp, skip - 32;
      ProbeStep(input, hash, table[..size], ip, skip);
      var h := nextHash;
      assert h == hash(Load(input, ip, 4)) < size;
      var bytesBetweenHashLookups := skip / 32;
      skip := skip + 1;
      nextIp := ip + bytesBetweenHashLookups;
      if nextIp > ipLimit {
        return false, ip, candidate, probes;
      }
      nextHash := Hash(input, nextIp, shift);
      assert table[h] == table[..size][h];
      candidate := table[h];
      ghost var t: seq<nat> := table[..size];
      table[h] := ip;
      assert table[..size] == t[h := ip];
      if Load(input, ip, 4) == Load(input, candidate, 4) {
        return true, ip, candidate, probes;
      }
    }
  }

  // ------------------------------------------------------------------
  // Step 3
  // ------------------------------------------------------------------

  // Insert the position before ip into the table, look ip up, insert ip.
  method UpdateTable(input: bytes, shift: nat, table: array<uint16>, ghost size: nat, ip: nat, inputBytes: nat)
    returns (candidate: nat)
    requires size <= table.Length && HashesInto(HashWith(shift), size) && TableBelow(table[..size], ip)
    requires 0 < ip && ip + 7 <= |input| <= kBlockSize && inputBytes == Load(input, ip - 1, 8)
    modifies table
    ensures (candidate, table[..size]) == Reprobe(input, HashWith(shift), old(table[..size]), ip)
    ensures var prev, cur := Hash(input, ip - 1, shift), Hash(input, ip, shift);
            && prev < size && cur < size
            && candidate == (if prev == cur then ip - 1 else old(table[..size])[cur])
            && forall h :: 0 <= h < size ==>
                 table[h] == if h == cur then ip else if h == prev then ip - 1 else old(table[h])
  {
    hide Load, HashBytes, GetUint32AtOffset;
    ghost var hash := HashWith(shift);
    ghost var t0: seq<nat> := table[..size];
    WideLoad(input, ip - 1, 0);
    WideLoad(input, ip - 1, 1);
    var prevHash := HashBytes(GetUint32AtOffset(inputBytes, 0), shift);
    assert prevHash == hash(Load(input, ip - 1, 4)) < size;
    table[prevHash] := ip - 1;
    ghost var t1: seq<nat> := t0[prevHash := ip - 1];
    assert table[..size] == t1;
    var curHash := HashBytes(GetUint32AtOffset(inputBytes, 1), shift);
    assert curHash == hash(Load(input, ip, 4)) < size;
    assert table[curHash] == table[..size][curHash];
    candidate := table[curHash];
    table[curHash] := ip;
    assert table[..size] == t1[curHash := ip];
  }

  // Measure one match and emit it as a copy.
  method EmitMatch(input: bytes, ghost hash: HashFunction, ghost found: Found, dest: array<byte>, ghost base: nat,
                   ghost start: nat, at: nat, ip: nat, candidate: nat, ghost whole: bytes)
    returns (op: nat, matched: nat)
    requires kInputMarginBytes <= |input| <= kBlockSize
    requires HashesInto(hash, |found.table|) && GoodMatch(input, found) && found.ip == ip &&
             found.candidate == candidate
    requires base <= start <= at <= base + FragmentBound(ip) && base + FragmentBound(|input|) <= dest.Length
    requires dest[start..at] + CopyCode(input, hash, found) == whole
    modifies dest
    ensures matched == MatchAt(input, ip, candidate)
    ensures at <= op < base + FragmentBound(ip + matched)
    ensures dest[start..op] + AfterCopyCode(input, hash, found.table, ip + matched) == whole
    ensures OnlyBetween(dest, at, op)
  {
    hide FragmentBound, CopyBytes, MatchAt, MatchLen, IsMatchLength, Load;
    hide TokensCode, CopyCode, RemainderCode, AfterCopyCode;
    matched := FindMatchLength64(input, candidate + 4, ip + 4, |input|);
    MatchLengthUnique(input, candidate + 4, ip + 4, |input|, matched);
    matched := 4 + matched;
    MatchAtIs(input, ip, candidate, matched);
    CopyCodeStep(input, hash, found);
    CopyBytesSize(ip - candidate, matched);
    BoundAdds(ip, matched, |input|);
    ghost var before := dest[start..at];
    op := EmitCopy(dest, at, ip - candidate, matched);
    assert dest[start..op] == before + CopyBytes(ip - candidate, matched);
  }

  lemma MatchAtIs(input: bytes, ip: nat, candidate: nat, m: nat)
    requires candidate < ip && ip + 4 <= |input| && m == 4 + MatchLen(input, candidate + 4, ip + 4, |input|)
    ensures m == MatchAt(input, ip, candidate)
  {}

  // Does the position behind a copy match right away?  It does if four bytes
  // there equal those at the position its hash was last seen at, the one just
  // before it included.
  method ProbeAgain(input: bytes, shift: nat, table: array<uint16>, ghost size: nat, ip: nat)
    returns (again: bool, candidate: nat)
    requires size <= table.Length && HashesInto(HashWith(shift), size) && TableBelow(table[..size], ip)
    requires kInputMarginBytes <= |input| <= kBlockSize && 0 < ip < |input| - kInputMarginBytes
    modifies table
    ensures var prev, cur := Hash(input, ip - 1, shift), Hash(input, ip, shift);
            prev < size && cur < size && candidate == (if prev == cur then ip - 1 else old(table[..size])[cur]) < ip
    ensures again <==> input[ip..ip + 4] == input[candidate..candidate + 4]
    ensures again ==> GoodMatch(input, Found(ip, candidate, table[..size]))
    ensures !again ==> Probing(input, HashWith(shift), table[..size], ip + 1)
    ensures AfterCopyCode(input, HashWith(shift), old(table[..size]), ip) ==
            if again then CopyCode(input, HashWith(shift), Found(ip, candidate, table[..size]))
            else TokensCode(input, HashWith(shift), table[..size], ip)
  {
    hide Load, HashBytes, GetUint32AtOffset, TokensCode, CopyCode, RemainderCode;
    var inputBytes := Load(input, ip - 1, 8);
    candidate := UpdateTable(input, shift, table, size, ip, inputBytes);
    WideLoad(input, ip - 1, 1);
    LoadEqual(input, ip, input, candidate, 4);
    again := GetUint32AtOffset(inputBytes, 1) == Load(input, candidate, 4);
  }

  lemma NothingAfter(input: bytes, hash: HashFunction, table: seq<nat>, ip: nat)
    requires kInputMarginBytes <= |input| <= kBlockSize && 0 < ip <= |input|
    requires HashesInto(hash, |table|) && TableBelow(table, ip)
    ensures ip >= |input| - kInputMarginBytes ==> AfterCopyCode(input, hash, table, ip) == RemainderCode(input, ip)
  {
    hide RemainderCode, TokensCode, CopyCode, Load;
  }

  // Copies, for as long as the next position matches right away.  done says
  // that the block is nearly exhausted; otherwise nextHash is the hash at the
  // position where scanning resumes.
  method EmitCopies(input: bytes, shift: nat, table: array<uint16>, ghost size: nat,
                    dest: array<byte>, ghost base: nat, start: nat, ip0: nat, candidate0: nat)
    returns (op: nat, nextEmit: nat, done: bool, nextHash: nat)
    requires size <= table.Length && HashesInto(HashWith(shift), size)
    requires kInputMarginBytes <= |input| <= kBlockSize && GoodMatch(input, Found(ip0, candidate0, table[..size]))
    requires base <= start && base + FragmentBound(|input|) <= dest.Length
    requires start <= base + FragmentBound(ip0)
    modifies table, dest
    ensures start <= op < base + FragmentBound(nextEmit)
    ensures ip0 < nextEmit <= |input|
    ensures !done ==> Probing(input, HashWith(shift), table[..size], nextEmit + 1)
    ensures !done ==> nextHash == Hash(input, nextEmit + 1, shift)
    ensures dest[start..op] + (if done then RemainderCode(input, nextEmit)
                               else TokensCode(input, HashWith(shift), table[..size], nextEmit))
         == CopyCode(input, HashWith(shift), Found(ip0, candidate0, old(table[..size])))
    ensures OnlyBetween(dest, start, op)
  {
    hide MatchAt, Load, HashBytes, GetUint32AtOffset, FragmentBound;
    hide TokensCode, CopyCode, RemainderCode, AfterCopyCode;
    ghost var hash := HashWith(shift);
    ghost var whole := CopyCode(input, hash, Found(ip0, candidate0, table[..size]));
    var ipLimit := |input| - kInputMarginBytes;
    var ip: nat, candidate: nat := ip0, candidate0;
    op, nextHash := start, 0;
    BoundAdds(ip0, 0, |input|);
    while true
      invariant HashesInto(hash, size) && ip0 <= ip && start <= op <= base + FragmentBound(ip) && op <= dest.Length
      invariant GoodMatch(input, Found(ip, candidate, table[..size]))
      invariant dest[start..op] + CopyCode(input, hash, Found(ip, candidate, table[..size])) == whole
      invariant OnlyBetween(dest, start, op)
      decreases |input| - ip
    {
      var matched;
      ghost var found := Found(ip, candidate, table[..size]);
      op, matched := EmitMatch(input, hash, found, dest, base, start, op, ip, candidate, whole);
      ip := ip + matched;
      nextEmit := ip;
      BoundAdds(ip, 0, |input|);
      NothingAfter(input, hash, table[..size], ip);
      if ip >= ipLimit {
        return op, nextEmit, true, nextHash;
      }
      var again;
      again, candidate := ProbeAgain(input, shift, table, size, ip);
      if !again {
        break;
      }
    }
    WideLoad(input, ip - 1, 2);
    nextHash := HashBytes(GetUint32AtOffset(Load(input, ip - 1, 8), 2), shift);
    done := false;
  }

  // ------------------------------------------------------------------
  // The whole fragment
  // ------------------------------------------------------------------

  // Step 2: the bytes before a match become a literal.
  method EmitUnmatched(input: bytes, dest: array<byte>, ghost base: nat, at: nat, nextEmit: nat, ip: nat,
                       ghost rest: bytes, ghost whole: bytes)
    returns (op: nat)
    requires nextEmit < ip && ip + kInputMarginBytes < |input| <= kBlockSize
    requires base <= at < base + FragmentBound(nextEmit) && base + FragmentBound(|input|) <= dest.Length
    requires dest[base..at] + (LiteralBytes(input[nextEmit..ip]) + rest) == whole
    modifies dest
    ensures at <= op <= base + FragmentBound(ip)
    ensures dest[base..op] + rest == whole
    ensures OnlyBetween(dest, at, base + FragmentBound(|input|))
  {
    hide FragmentBound, LiteralBytes, LiteralHeader;
    LiteralBytesSize(input[nextEmit..ip]);
    BoundAdds(nextEmit, ip - nextEmit, |input|);
    BoundAdds(nextEmit, 17, |input|);
    ghost var before := dest[base..at];
    op := EmitLiteral(dest, at, input, nextEmit, ip - nextEmit, true);
    assert dest[base..op] == before + LiteralBytes(input[nextEmit..ip]);
  }

  // Steps 2 and 3 for one match.
  method EmitRound(input: bytes, shift: nat, table: array<uint16>, ghost size: nat, dest: array<byte>, base: nat,
                   at: nat, nextEmit0: nat, ip: nat, candidate: nat, ghost whole: bytes)
    returns (op: nat, nextEmit: nat, done: bool, nextHash: nat)
    requires kInputMarginBytes <= |input| <= kBlockSize && base + FragmentBound(|input|) <= dest.Length
    requires size <= table.Length && HashesInto(HashWith(shift), size) && nextEmit0 < ip
    requires GoodMatch(input, Found(ip, candidate, table[..size])) && base <= at < base + FragmentBound(nextEmit0)
    requires dest[base..at] + (LiteralBytes(input[nextEmit0..ip]) +
                               CopyCode(input, HashWith(shift), Found(ip, candidate, table[..size]))) == whole
    modifies table, dest
    ensures base <= op < base + FragmentBound(nextEmit) && ip < nextEmit <= |input|
    ensures !done ==> Probing(input, HashWith(shift), table[..size], nextEmit + 1)
    ensures !done ==> nextHash == Hash(input, nextEmit + 1, shift)
    ensures dest[base..op] + (if done then RemainderCode(input, nextEmit)
                              else TokensCode(input, HashWith(shift), table[..size], nextEmit)) == whole
    ensures OnlyBetween(dest, base, base + FragmentBound(|input|))
  {
    hide Load, HashBytes, TokensCode, CopyCode, LiteralBytes, RemainderCode;
    ghost var rest := CopyCode(input, HashWith(shift), Found(ip, candidate, table[..size]));
    op := EmitUnmatched(input, dest, base, at, nextEmit0, ip, rest, whole);
    ghost var start, before := op, dest[base..op];
    op, nextEmit, done, nextHash := EmitCopies(input, shift, table, size, dest, base, op, ip, candidate);
    assert dest[base..op] == before + dest[start..op];
  }

  // The main loop: scan, emit a literal, emit copies, until the block is
  // nearly exhausted.
  method EmitMatches(input: bytes, shift: nat, table: array<uint16>, ghost size: nat, dest: array<byte>, base: nat)
    returns (op: nat, nextEmit: nat)
    requires kInputMarginBytes <= |input| <= kBlockSize && base + FragmentBound(|input|) <= dest.Length
    requires size <= table.Length && HashesInto(HashWith(shift), size) && TableBelow(table[..size], 1)
    modifies table, dest
    ensures nextEmit <= |input| && base <= op < base + FragmentBound(nextEmit)
    ensures dest[base..op] + RemainderCode(input, nextEmit) == TokensCode(input, HashWith(shift), old(table[..size]), 0)
    ensures OnlyBetween(dest, base, base + FragmentBound(|input|))
  {
    hide Load, HashBytes, TokensCode, CopyCode, LiteralBytes, RemainderCode, Scan;
    ghost var hash := HashWith(shift);
    ghost var whole := TokensCode(input, hash, table[..size], 0);
    op, nextEmit := base, 0;
    var nextHash := Hash(input, 1, shift);
    var done := false;
    while !done
      invariant base <= op < base + FragmentBound(nextEmit) && nextEmit <= |input|
      invariant !done ==> Probing(input, hash, table[..size], nextEmit + 1)
      invariant !done ==> nextHash == Hash(input, nextEmit + 1, shift)
      invariant dest[base..op] + (if done then RemainderCode(input, nextEmit)
                                  else TokensCode(input, hash, table[..size], nextEmit)) == whole
      invariant OnlyBetween(dest, base, base + FragmentBound(|input|))
      decreases |input| - nextEmit, !done
    {
      TokensCodeStep(input, hash, table[..size], nextEmit);
      var found, ip, candidate, _ := ScanForMatch(input, shift, table, size, nextEmit + 1, nextHash);
      if !found {
        break;
      }
      op, nextEmit, done, nextHash :=
        EmitRound(input, shift, table, size, dest, base, op, nextEmit, ip, candidate, whole);
    }
  }

  // Compresses the block into dest[base..op].  The output may be scribbled
  // past its end, but never past FragmentBound bytes from base.
  method CompressFragment(input: bytes, dest: array<byte>, base: nat, table: array<uint16>, tableSize: uint32,
                          ghost bits: nat)
    returns (op: nat)
    requires |input| <= kBlockSize && base + FragmentBound(|input|) <= dest.Length
    requires 0 < bits < 31 && tableSize == Pow2(bits) <= table.Length
    requires table[..tableSize] == Zeros(tableSize)
    modifies table, dest
    ensures HashesInto(HashWith(32 - bits), tableSize)
    ensures base <= op <= base + FragmentBound(|input|)
    ensures dest[base..op] == FragmentBytes(input, HashWith(32 - bits), tableSize)
    ensures OnlyBetween(dest, base, base + FragmentBound(|input|))
  {
    hide FragmentTokens, TokensCode, RemainderCode;
    var log := Log2Floor(tableSize);
    Log2OfPow2(bits, log);
    var shift := 32 - log;
    HashInTable(bits);
    ghost var whole := FragmentBytes(input, HashWith(shift), tableSize);
    FragmentUnfolds(input, HashWith(shift), tableSize);
    op := base;
    var nextEmit := 0;
    if |input| >= kInputMarginBytes {
      op, nextEmit := EmitMatches(input, shift, table, tableSize, dest, base);
    }
    op := EmitRemainder(input, dest, base, op, nextEmit, whole);
  }

  // emit_remainder: what is left of the block becomes one literal.
  method EmitRemainder(input: bytes, dest: array<byte>, ghost base: nat, at: nat, nextEmit: nat, ghost whole: bytes)
    returns (op: nat)
    requires nextEmit <= |input| <= kBlockSize && base + FragmentBound(|input|) <= dest.Length
    requires base <= at < base + FragmentBound(nextEmit)
    requires dest[base..at] + RemainderCode(input, nextEmit) == whole
    modifies dest
    ensures at <= op <= base + FragmentBound(|input|)
    ensures dest[base..op] == whole
    ensures OnlyBetween(dest, at, op)
  {
    hide LiteralBytes, LiteralHeader, FragmentBound;
    BoundAdds(nextEmit, 0, |input|);
    op := at;
    ghost var before := dest[base..op];
    if nextEmit < |input| {
      LiteralBytesSize(input[nextEmit..]);
      BoundAdds(nextEmit, |input| - nextEmit, |input|);
      op := EmitLiteral(dest, at, input, nextEmit, |input| - nextEmit, false);
      assert input[nextEmit..nextEmit + (|input| - nextEmit)] == input[nextEmit..];
      assert dest[base..op] == before + LiteralBytes(input[nextEmit..]);
    }
  }
}
