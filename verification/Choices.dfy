// What the match finder chooses, as laws about the elements it produces:
// where it looks, when it finds a match, how long a copy gets, and what
// follows a copy.

module Choices {
  import opened Machine
  import opened Lz77
  import opened MatchLength
  import opened TagFormat
  import opened MatchFinder
  import opened FragmentCode
  import opened FragmentCompressor

  // ------------------------------------------------------------------
  // Scanning
  // ------------------------------------------------------------------

  // Where probe k of a scan from ip looks.
  ghost function Probe(ip: nat, k: nat): nat {
    ip + ProbeDistance(k)
  }

  lemma ProbesAscend(ip: nat, k: nat)
    ensures Probe(ip, 0) == ip && Probe(ip, k + 1) == Probe(ip, k) + (32 + k) / 32 > Probe(ip, k)
  {}

  // The hash of the four bytes probe k looks at.
  ghost function HashAt(input: bytes, hash: HashFunction, ip: nat, k: nat): int {
    if Probe(ip, k) + 4 <= |input| then hash(Load(input, Probe(ip, k), 4)) else -1
  }

  // The table after k probes.
  ghost function Probed(input: bytes, hash: HashFunction, table: seq<nat>, ip: nat, k: nat): (t: seq<nat>)
    ensures |t| == |table|
  {
    if k == 0 then table
    else
      var h := HashAt(input, hash, ip, k - 1);
      var t := Probed(input, hash, table, ip, k - 1);
      if 0 <= h < |table| then t[h := Probe(ip, k - 1)] else t
  }

  // Slot h holds the last position so far whose four bytes hash to h, or
  // what it held before if there is none.
  lemma {:induction false} ProbedHolds(input: bytes, hash: HashFunction, table: seq<nat>, ip: nat, k: nat, h: nat)
    requires h < |table|
    ensures var p := Probed(input, hash, table, ip, k)[h];
            || (&& p == table[h]
                && forall i {:trigger HashAt(input, hash, ip, i)} :: 0 <= i < k ==> HashAt(input, hash, ip, i) != h)
            || exists i {:trigger HashAt(input, hash, ip, i)} ::
                 && 0 <= i < k && p == Probe(ip, i) && HashAt(input, hash, ip, i) == h
                 && forall j {:trigger HashAt(input, hash, ip, j)} :: i < j < k ==> HashAt(input, hash, ip, j) != h
  {
    hide HashAt;
    if k > 0 {
      ProbedHolds(input, hash, table, ip, k - 1, h);
      if HashAt(input, hash, ip, k - 1) == h {
        assert Probed(input, hash, table, ip, k)[h] == Probe(ip, k - 1);
      }
    }
  }

  // What probe k finds in the table.
  ghost function CandidateAt(input: bytes, hash: HashFunction, table: seq<nat>, ip: nat, k: nat): nat {
    var h := HashAt(input, hash, ip, k);
    if 0 <= h < |table| then Probed(input, hash, table, ip, k)[h] else 0
  }

  // As many probes as fail leave this much of the scan to be done.
  lemma {:induction false} ScanAfter(input: bytes, hash: HashFunction, table: seq<nat>, ip: nat, k: nat)
    requires Probing(input, hash, table, ip) && k <= FailedProbes(input, hash, table, ip, 32)
    ensures var t, p := Probed(input, hash, table, ip, k), Probe(ip, k);
            && Probing(input, hash, t, p)
            && Scan(input, hash, table, ip, 32) == Scan(input, hash, t, p, 32 + k)
            && FailedProbes(input, hash, table, ip, 32) == k + FailedProbes(input, hash, t, p, 32 + k)
  {
    hide Scan, FailedProbes, Load, Probing, HashAt;
    ProbesAscend(ip, 0);
    if k > 0 {
      ScanAfter(input, hash, table, ip, k - 1);
      ProbesAscend(ip, k - 1);
      FailedStep(input, hash, Probed(input, hash, table, ip, k - 1), ip, k - 1);
    }
  }

  // One more failed probe.
  lemma FailedStep(input: bytes, hash: HashFunction, t: seq<nat>, ip: nat, k: nat)
    requires Probing(input, hash, t, Probe(ip, k)) && FailedProbes(input, hash, t, Probe(ip, k), 32 + k) > 0
    ensures var h, p, next := HashAt(input, hash, ip, k), Probe(ip, k), Probe(ip, k) + (32 + k) / 32;
            && 0 <= h < |t|
            && Probing(input, hash, t[h := p], next)
            && Scan(input, hash, t, p, 32 + k) == Scan(input, hash, t[h := p], next, 32 + (k + 1))
            && FailedProbes(input, hash, t, p, 32 + k) == 1 + FailedProbes(input, hash, t[h := p], next, 32 + (k + 1))
  {
    hide Scan, FailedProbes, Load, Probe;
    ProbeStep(input, hash, t, Probe(ip, k), 32 + k);
  }

  // A probe that fails has another probe before it that stays clear of the
  // last fifteen bytes, and sees four bytes that differ.
  lemma ProbeFails(input: bytes, hash: HashFunction, table: seq<nat>, ip: nat, k: nat)
    requires Probing(input, hash, table, ip) && k < FailedProbes(input, hash, table, ip, 32)
    ensures var p, c := Probe(ip, k), CandidateAt(input, hash, table, ip, k);
            Probe(ip, k + 1) + 15 <= |input| && c < p && input[c..c + 4] != input[p..p + 4]
  {
    hide Scan, FailedProbes, Load;
    ScanAfter(input, hash, table, ip, k);
    ProbesAscend(ip, k);
    var t, p := Probed(input, hash, table, ip, k), Probe(ip, k);
    ProbeStep(input, hash, t, p, 32 + k);
    LoadEqual(input, t[hash(Load(input, p, 4))], input, p, 4);
  }

  // The scan ends with the first probe that does not fail: in a match, or
  // without one when the next probe would come within fifteen bytes of the
  // end of the block.
  lemma ScanEnds(input: bytes, hash: HashFunction, table: seq<nat>, ip: nat)
    requires Probing(input, hash, table, ip)
    ensures var n := FailedProbes(input, hash, table, ip, 32);
            var p, c := Probe(ip, n), CandidateAt(input, hash, table, ip, n);
            var r := Scan(input, hash, table, ip, 32);
            && (r == None <==> Probe(ip, n + 1) + 15 > |input|)
            && (r.Some? ==>
                  && r.value == Found(p, c, Probed(input, hash, table, ip, n + 1))
                  && c < p && input[c..c + 4] == input[p..p + 4])
  {
    hide Scan, FailedProbes, Load;
    var n := FailedProbes(input, hash, table, ip, 32);
    ScanAfter(input, hash, table, ip, n);
    ProbesAscend(ip, n);
    var t, p := Probed(input, hash, table, ip, n), Probe(ip, n);
    ProbeStep(input, hash, t, p, 32 + n);
    if p + 4 <= |input| {
      assert HashAt(input, hash, ip, n) == hash(Load(input, p, 4));
      if t[hash(Load(input, p, 4))] + 4 <= |input| {
        LoadEqual(input, t[hash(Load(input, p, 4))], input, p, 4);
      }
    }
  }

  // ------------------------------------------------------------------
  // Elements
  // ------------------------------------------------------------------

  // From nextEmit on: one literal for all that is left, or a literal up to
  // the first match and a copy of it.
  lemma LiteralThenCopy(input: bytes, hash: HashFunction, table: seq<nat>, nextEmit: nat)
    requires Probing(input, hash, table, nextEmit + 1)
    ensures var ip, els := nextEmit + 1, Tokens(input, hash, table, nextEmit);
            var n := FailedProbes(input, hash, table, ip, 32);
            var p, c := Probe(ip, n), CandidateAt(input, hash, table, ip, n);
            if Probe(ip, n + 1) + 15 > |input| then
              els == [Literal(input[nextEmit..])]
            else
              && |els| >= 2 && nextEmit < p < |input| && c < p
              && els[0] == Literal(input[nextEmit..p])
              && els[1].Copy? && els[1].offset == p - c
  {
    hide Scan, FailedProbes, Load, MatchAt, Reprobe;
    ScanEnds(input, hash, table, nextEmit + 1);
    match Scan(input, hash, table, nextEmit + 1, 32) {
      case None =>
      case Some(found) =>
        CopyFirst(input, hash, found);
    }
  }

  lemma CopyFirst(input: bytes, hash: HashFunction, found: Found)
    requires kInputMarginBytes <= |input| <= kBlockSize
    requires HashesInto(hash, |found.table|) && GoodMatch(input, found)
    ensures CopyTokens(input, hash, found) != []
    ensures CopyTokens(input, hash, found)[0] ==
            Copy(found.ip - found.candidate, MatchAt(input, found.ip, found.candidate))
  {
    hide Load, MatchAt, Reprobe, Tokens;
  }

  // A copy is as long as the match.
  lemma CopyIsMaximal(input: bytes, hash: HashFunction, found: Found)
    requires kInputMarginBytes <= |input| <= kBlockSize
    requires HashesInto(hash, |found.table|) && GoodMatch(input, found)
    ensures var els := CopyTokens(input, hash, found);
            && els != [] && els[0].Copy? && els[0].offset == found.ip - found.candidate
            && found.ip + els[0].len <= |input|
            && input[found.ip..found.ip + els[0].len] == input[found.candidate..found.candidate + els[0].len]
            && (found.ip + els[0].len < |input| ==> input[found.ip + els[0].len] != input[found.candidate + els[0].len])
  {
    hide Load, MatchAt, CopyTokens;
    CopyFirst(input, hash, found);
    MatchAtMatches(input, found.ip, found.candidate);
    MatchAtEnds(input, found.ip, found.candidate);
  }

  lemma MatchAtEnds(input: bytes, ip: nat, candidate: nat)
    requires candidate < ip && ip + 4 <= |input|
    ensures var m := MatchAt(input, ip, candidate);
            ip + m < |input| ==> input[ip + m] != input[candidate + m]
  {
    MatchLenIsMatchLength(input, candidate + 4, ip + 4, |input|);
  }

  // What follows a copy that ends at ip: nothing but a last literal within
  // fifteen bytes of the end; else another copy if and only if four bytes at
  // ip equal those where their hash was last seen.
  lemma AfterCopy(input: bytes, hash: HashFunction, found: Found)
    requires kInputMarginBytes <= |input| <= kBlockSize
    requires HashesInto(hash, |found.table|) && GoodMatch(input, found)
    ensures var els := CopyTokens(input, hash, found);
            var ip := found.ip + els[0].len;
            ip <= |input| &&
            if ip + 15 >= |input| then
              els[1..] == if ip < |input| then [Literal(input[ip..])] else []
            else
              var prev, cur := hash(Load(input, ip - 1, 4)), hash(Load(input, ip, 4));
              var c := if prev == cur then ip - 1 else found.table[cur];
              && |els| >= 2 && c < ip
              && (els[1].Copy? <==> input[ip..ip + 4] == input[c..c + 4])
              && (els[1].Copy? ==> els[1].offset == ip - c)
              && (els[1].Literal? ==> els[1].data != [] && els[1].data <= input[ip..])
  {
    hide Load, MatchAt, Scan, Reprobe, Tokens;
    CopyFirst(input, hash, found);
    var ip := found.ip + MatchAt(input, found.ip, found.candidate);
    var rest := CopyTokens(input, hash, found)[1..];
    if ip + 15 < |input| {
      ReprobeMeans(input, hash, found.table, ip);
      var (c, table) := Reprobe(input, hash, found.table, ip);
      LoadEqual(input, ip, input, c, 4);
      if Load(input, ip, 4) == Load(input, c, 4) {
        CopyFirst(input, hash, Found(ip, c, table));
      } else {
        LiteralFirst(input, hash, table, ip);
      }
    }
  }

  lemma LiteralFirst(input: bytes, hash: HashFunction, table: seq<nat>, nextEmit: nat)
    requires Probing(input, hash, table, nextEmit + 1)
    ensures var els := Tokens(input, hash, table, nextEmit);
            els != [] && els[0].Literal? && els[0].data != [] && els[0].data <= input[nextEmit..]
  {
    hide Load, CopyTokens, Scan;
  }

  lemma ReprobeMeans(input: bytes, hash: HashFunction, table: seq<nat>, ip: nat)
    requires HashesInto(hash, |table|) && TableBelow(table, ip) && 0 < ip && ip + 4 <= |input|
    ensures var prev, cur := hash(Load(input, ip - 1, 4)), hash(Load(input, ip, 4));
            var (candidate, after) := Reprobe(input, hash, table, ip);
            && candidate == (if prev == cur then ip - 1 else table[cur])
            && |after| == |table|
            && forall h :: 0 <= h < |table| ==>
                 after[h] == if h == cur then ip else if h == prev then ip - 1 else table[h]
  {
    hide Load;
  }

  // ------------------------------------------------------------------
  // Runs of one byte
  // ------------------------------------------------------------------

  ghost predicate OneByte(s: bytes) {
    s != [] && forall i :: 0 <= i < |s| ==> s[i] == s[0]
  }

  // From 17 bytes on, a run is one byte and a copy of it, whatever the hash
  // function; shorter ones are left alone.
  lemma RunTokens(s: bytes, hash: HashFunction, tableSize: nat)
    requires OneByte(s) && |s| <= kBlockSize && HashesInto(hash, tableSize)
    ensures FragmentTokens(s, hash, tableSize) ==
            if |s| >= 17 then [Literal([s[0]]), Copy(1, |s| - 1)] else [Literal(s)]
  {
    hide Load, Tokens, CopyTokens, Scan;
    var table := Zeros(tableSize);
    assert s[0..] == s && s[0..1] == [s[0]];
    if |s| >= 15 {
      assert Probing(s, hash, table, 1);
      ProbeStep(s, hash, table, 1, 32);
      if |s| >= 17 {
        RunMatches(s);
        var found := Found(1, 0, table[hash(Load(s, 1, 4)) := 1]);
        RunCopy(s, hash, found);
        TokensAre(s, hash, table, found);
      } else {
        TokensAreRest(s, hash, table);
      }
    }
  }

  lemma TokensAre(input: bytes, hash: HashFunction, table: seq<nat>, found: Found)
    requires Probing(input, hash, table, 1) && Scan(input, hash, table, 1, 32) == Some(found)
    ensures Tokens(input, hash, table, 0) == [Literal(input[0..found.ip])] + CopyTokens(input, hash, found)
  {
    hide CopyTokens, Scan;
  }

  lemma TokensAreRest(input: bytes, hash: HashFunction, table: seq<nat>)
    requires Probing(input, hash, table, 1) && Scan(input, hash, table, 1, 32) == None
    ensures Tokens(input, hash, table, 0) == [Literal(input)]
  {
    hide CopyTokens, Scan;
    assert input[0..] == input;
  }

  lemma RunMatches(s: bytes)
    requires OneByte(s) && |s| >= 17
    ensures Load(s, 1, 4) == Load(s, 0, 4)
  {
    LoadEqual(s, 1, s, 0, 4);
    assert s[1..5] == s[0..4];
  }

  lemma RunCopy(s: bytes, hash: HashFunction, found: Found)
    requires OneByte(s) && 17 <= |s| <= kBlockSize && HashesInto(hash, |found.table|)
    requires found.ip == 1 && found.candidate == 0 && GoodMatch(s, found)
    ensures CopyTokens(s, hash, found) == [Copy(1, |s| - 1)]
  {
    hide Load, CopyTokens;
    CopyIsMaximal(s, hash, found);
    AfterCopy(s, hash, found);
    var els := CopyTokens(s, hash, found);
    assert els == [els[0]] + els[1..];
  }

  // The size of a compressed run.
  lemma RunSize(s: bytes, hash: HashFunction, tableSize: nat)
    requires OneByte(s) && |s| <= kBlockSize && HashesInto(hash, tableSize)
    ensures |FragmentBytes(s, hash, tableSize)| ==
            if |s| >= 17 then 2 + 3 * ((|s| + 62) / 64) - (if 1 <= (|s| - 1) % 64 < 12 then 1 else 0)
            else |s| + 1
  {
    hide FragmentTokens, Encode, LiteralHeader, CopyBytes;
    RunTokens(s, hash, tableSize);
    FragmentEmittable(s, hash, tableSize);
    assert AllEmittable([]) && Encode([]) == [] by {
      EncodeNothing();
    }
    if |s| >= 17 {
      var lit, copy := Literal([s[0]]), Copy(1, |s| - 1);
      EmittableCons(copy, []);
      EmittableCons(lit, [copy]);
      assert [lit] + [copy] == [lit, copy] && [copy] + [] == [copy];
      LiteralHeaderLength(1);
      CopyBytesLength(1, |s| - 1);
    } else {
      EmittableCons(Literal(s), []);
      assert [Literal(s)] + [] == [Literal(s)];
      LiteralHeaderLength(|s|);
    }
  }

  lemma EncodeNothing()
    ensures AllEmittable([]) && Encode([]) == []
  {}
}
