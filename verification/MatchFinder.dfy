// The compressor's greedy match finder as a function of the block, the hash
// function and the contents of the hash table, and what it guarantees:
// the elements it chooses rebuild the block, whatever the hash function.

module MatchFinder {
  import opened Machine
  import opened Lz77
  import opened MatchLength

  const kBlockSize: nat := 0x1_0000
  const kInputMarginBytes := 15

  type HashFunction = nat -> nat

  ghost predicate HashesInto(hash: HashFunction, size: nat) {
    forall w: nat :: hash(w) < size
  }

  // Every entry of the table is a position before ip.
  ghost predicate TableBelow(table: seq<nat>, ip: nat) {
    forall h :: 0 <= h < |table| ==> table[h] < ip
  }

  // What the main loop may rely on at position ip of the block.
  ghost predicate Probing(input: bytes, hash: HashFunction, table: seq<nat>, ip: nat) {
    && kInputMarginBytes <= |input| <= kBlockSize
    && HashesInto(hash, |table|)
    && TableBelow(table, ip)
    && 0 < ip <= |input| - kInputMarginBytes + 1
  }

  datatype Found = Found(ip: nat, candidate: nat, table: seq<nat>)

  // Four bytes match at found.ip and at an earlier position, there is room
  // for another probe after it, and the table knows about found.ip.
  ghost predicate GoodMatch(input: bytes, found: Found) {
    && found.candidate < found.ip < |input| - kInputMarginBytes
    && Load(input, found.candidate, 4) == Load(input, found.ip, 4)
    && TableBelow(found.table, found.ip + 1)
  }

  // Step 1: probe ip, then ever further ahead, until four bytes match.
  ghost function Scan(input: bytes, hash: HashFunction, table: seq<nat>, ip: nat, skip: nat): (r: Option<Found>)
    requires Probing(input, hash, table, ip) && skip >= 32
    ensures r.Some? ==> ip <= r.value.ip && GoodMatch(input, r.value) && |r.value.table| == |table|
    decreases |input| - ip
  {
    var next := ip + skip / 32;
    if next > |input| - kInputMarginBytes then None
    else
      var h := hash(Load(input, ip, 4));
      if Load(input, ip, 4) == Load(input, table[h], 4) then Some(Found(ip, table[h], table[h := ip]))
      else Scan(input, hash, table[h := ip], next, skip + 1)
  }

  // How many of the scan's lookups fail.
  ghost function FailedProbes(input: bytes, hash: HashFunction, table: seq<nat>, ip: nat, skip: nat): nat
    requires Probing(input, hash, table, ip) && skip >= 32
    decreases |input| - ip
  {
    var next := ip + skip / 32;
    if next > |input| - kInputMarginBytes then 0
    else
      var h := hash(Load(input, ip, 4));
      if Load(input, ip, 4) == Load(input, table[h], 4) then 0
      else 1 + FailedProbes(input, hash, table[h := ip], next, skip + 1)
  }

  ghost function Remainder(input: bytes, nextEmit: nat): seq<Element>
    requires nextEmit <= |input|
  {
    if nextEmit < |input| then [Literal(input[nextEmit..])] else []
  }

  ghost function MatchAt(input: bytes, ip: nat, candidate: nat): (n: nat)
    requires candidate < ip && ip + 4 <= |input|
    ensures n >= 4 && ip + n <= |input|
  {
    4 + MatchLen(input, candidate + 4, ip + 4, |input|)
  }

  // Insert the position before ip, look ip up, insert ip.
  ghost function Reprobe(input: bytes, hash: HashFunction, table: seq<nat>, ip: nat): (r: (nat, seq<nat>))
    requires HashesInto(hash, |table|) && TableBelow(table, ip) && 0 < ip && ip + 4 <= |input|
    ensures r.0 < ip && |r.1| == |table| && TableBelow(r.1, ip + 1)
  {
    var t := table[hash(Load(input, ip - 1, 4)) := ip - 1];
    var h := hash(Load(input, ip, 4));
    (t[h], t[h := ip])
  }

  // Steps 2 and 3: the literal before a match, then copies for as long as
  // the next position matches right away.
  ghost function Tokens(input: bytes, hash: HashFunction, table: seq<nat>, nextEmit: nat): seq<Element>
    requires Probing(input, hash, table, nextEmit + 1)
    decreases |input| - nextEmit, 1
  {
    match Scan(input, hash, table, nextEmit + 1, 32)
    case None => Remainder(input, nextEmit)
    case Some(found) => [Literal(input[nextEmit..found.ip])] + CopyTokens(input, hash, found)
  }

  ghost function CopyTokens(input: bytes, hash: HashFunction, found: Found): seq<Element>
    requires kInputMarginBytes <= |input| <= kBlockSize
    requires HashesInto(hash, |found.table|) && GoodMatch(input, found)
    decreases |input| - found.ip, 0
  {
    var m := MatchAt(input, found.ip, found.candidate);
    var ip := found.ip + m;
    [Copy(found.ip - found.candidate, m)] +
    if ip >= |input| - kInputMarginBytes then Remainder(input, ip)
    else
      var (candidate, table) := Reprobe(input, hash, found.table, ip);
      if Load(input, ip, 4) == Load(input, candidate, 4) then CopyTokens(input, hash, Found(ip, candidate, table))
      else Tokens(input, hash, table, ip)
  }

  ghost function Zeros(n: nat): (s: seq<nat>)
    ensures |s| == n
  {
    seq(n, i => 0)
  }

  // All of CompressFragment, before encoding.
  ghost function FragmentTokens(input: bytes, hash: HashFunction, tableSize: nat): seq<Element>
    requires |input| <= kBlockSize && HashesInto(hash, tableSize)
  {
    if |input| >= kInputMarginBytes then Tokens(input, hash, Zeros(tableSize), 0)
    else Remainder(input, 0)
  }

  // ------------------------------------------------------------------
  // The chosen elements rebuild the block
  // ------------------------------------------------------------------

  // Matching bytes at distance d: the copy continues the block.
  lemma CopyContinues(input: bytes, candidate: nat, ip: nat, m: nat)
    requires candidate < ip && Matches(input, candidate, ip, m)
    ensures CopyBack(input[..ip], ip - candidate, m) == input[..ip + m]
  {
    var r, d := input[..ip + m], ip - candidate;
    forall i {:trigger r[i]} | ip <= i < |r|
      ensures d <= i && r[i] == r[i - d]
    {
      MatchesAt(input, candidate, ip, m, i - ip);
    }
    assert r[..ip] == input[..ip];
    RepeatsIsCopyBack(r, input[..ip], d, m);
    assert r[..ip + m] == r;
  }

  lemma MatchAtMatches(input: bytes, ip: nat, candidate: nat)
    requires candidate < ip && ip + 4 <= |input| && Load(input, candidate, 4) == Load(input, ip, 4)
    ensures Matches(input, candidate, ip, MatchAt(input, ip, candidate))
  {
    LoadEqual(input, candidate, input, ip, 4);
    MatchLenIsMatchLength(input, candidate + 4, ip + 4, |input|);
    MatchExtend(input, candidate, ip, 4, MatchLen(input, candidate + 4, ip + 4, |input|));
  }

  // A good match runs as a copy.
  lemma CopyRuns(input: bytes, ip: nat, candidate: nat, limit: nat)
    requires candidate < ip && ip + 4 <= |input| <= limit && Load(input, candidate, 4) == Load(input, ip, 4)
    ensures var m := MatchAt(input, ip, candidate);
            Step(input[..ip], limit, Copy(ip - candidate, m)) == Some(input[..ip + m])
  {
    hide Load, MatchAt, Matches, CopyBack;
    MatchAtMatches(input, ip, candidate);
    CopyContinues(input, candidate, ip, MatchAt(input, ip, candidate));
  }

  lemma RunCons(e: Element, els: seq<Element>, out: bytes, limit: nat)
    ensures Run([e] + els, out, limit) ==
            match Step(out, limit, e) { case None => None case Some(next) => Run(els, next, limit) }
  {
    assert ([e] + els)[0] == e && ([e] + els)[1..] == els;
  }

  lemma RemainderRuns(input: bytes, nextEmit: nat, limit: nat)
    requires nextEmit <= |input| <= limit
    ensures Run(Remainder(input, nextEmit), input[..nextEmit], limit) == Some(input)
  {
    var out, rest := input[..nextEmit], input[nextEmit..];
    assert out + rest == input;
    if nextEmit < |input| {
      RunCons(Literal(rest), [], out, limit);
      assert [Literal(rest)] + [] == [Literal(rest)];
    } else {
      assert out == input;
    }
  }

  lemma {:induction false} TokensRun(input: bytes, hash: HashFunction, table: seq<nat>, nextEmit: nat, limit: nat)
    requires Probing(input, hash, table, nextEmit + 1) && |input| <= limit
    ensures Run(Tokens(input, hash, table, nextEmit), input[..nextEmit], limit) == Some(input)
    decreases |input| - nextEmit, 1
  {
    hide Scan, Run;
    match Scan(input, hash, table, nextEmit + 1, 32) {
      case None => RemainderRuns(input, nextEmit, limit);
      case Some(found) =>
        var lit := Literal(input[nextEmit..found.ip]);
        assert input[..nextEmit] + lit.data == input[..found.ip];
        RunCons(lit, CopyTokens(input, hash, found), input[..nextEmit], limit);
        CopyTokensRun(input, hash, found, limit);
    }
  }

  lemma {:induction false} CopyTokensRun(input: bytes, hash: HashFunction, found: Found, limit: nat)
    requires kInputMarginBytes <= |input| <= kBlockSize && |input| <= limit
    requires HashesInto(hash, |found.table|) && GoodMatch(input, found)
    ensures Run(CopyTokens(input, hash, found), input[..found.ip], limit) == Some(input)
    decreases |input| - found.ip, 0
  {
    hide Run, MatchAt, Reprobe, Step, Load;
    var m := MatchAt(input, found.ip, found.candidate);
    var ip, copy := found.ip + m, Copy(found.ip - found.candidate, m);
    CopyRuns(input, found.ip, found.candidate, limit);
    var rest := CopyTokens(input, hash, found)[1..];
    RunCons(copy, rest, input[..found.ip], limit);
    assert CopyTokens(input, hash, found) == [copy] + rest;
    if ip >= |input| - kInputMarginBytes {
      RemainderRuns(input, ip, limit);
    } else {
      var (candidate, table) := Reprobe(input, hash, found.table, ip);
      if Load(input, ip, 4) == Load(input, candidate, 4) {
        CopyTokensRun(input, hash, Found(ip, candidate, table), limit);
      } else {
        TokensRun(input, hash, table, ip, limit);
      }
    }
  }

  // Any hash function will do.
  lemma FragmentRuns(input: bytes, hash: HashFunction, tableSize: nat, limit: nat)
    requires |input| <= kBlockSize && HashesInto(hash, tableSize) && |input| <= limit
    ensures Run(FragmentTokens(input, hash, tableSize), [], limit) == Some(input)
  {
    assert input[..0] == [];
    if |input| >= kInputMarginBytes {
      TokensRun(input, hash, Zeros(tableSize), 0, limit);
    } else {
      RemainderRuns(input, 0, limit);
    }
  }
}
