// Encoding the match finder's elements: round trip, independence of blocks,
// and the size bound.

module FragmentCode {
  import opened Machine
  import opened Lz77
  import opened TagFormat
  import opened MatchFinder

  // What EmitLiteral and EmitCopy are called with.
  ghost predicate Emittable(e: Element) {
    match e
    case Literal(data) => 1 <= |data| <= kBlockSize
    case Copy(offset, len) => 0 < offset < 0x1_0000 && 4 <= len
  }

  ghost predicate AllEmittable(els: seq<Element>) {
    forall i :: 0 <= i < |els| ==> Emittable(els[i])
  }

  function ElementBytes(e: Element): bytes
    requires Emittable(e)
  {
    match e
    case Literal(data) => LiteralBytes(data)
    case Copy(offset, len) => CopyBytes(offset, len)
  }

  function Encode(els: seq<Element>): bytes
    requires AllEmittable(els)
  {
    if els == [] then [] else ElementBytes(els[0]) + Encode(els[1..])
  }

  // ------------------------------------------------------------------
  // The match finder only asks for elements the emitters can encode
  // ------------------------------------------------------------------

  lemma EmittableCons(e: Element, els: seq<Element>)
    requires Emittable(e) && AllEmittable(els)
    ensures AllEmittable([e] + els)
    ensures Encode([e] + els) == ElementBytes(e) + Encode(els)
  {
    assert ([e] + els)[0] == e && ([e] + els)[1..] == els;
  }

  lemma RemainderEmittable(input: bytes, nextEmit: nat)
    requires nextEmit <= |input| <= kBlockSize
    ensures AllEmittable(Remainder(input, nextEmit))
  {}

  lemma {:induction false} TokensEmittable(input: bytes, hash: HashFunction, table: seq<nat>, nextEmit: nat)
    requires Probing(input, hash, table, nextEmit + 1)
    ensures AllEmittable(Tokens(input, hash, table, nextEmit))
    decreases |input| - nextEmit, 1
  {
    hide Scan, Encode, ElementBytes;
    match Scan(input, hash, table, nextEmit + 1, 32) {
      case None =>
        RemainderEmittable(input, nextEmit);
      case Some(found) =>
        CopyTokensEmittable(input, hash, found);
        EmittableCons(Literal(input[nextEmit..found.ip]), CopyTokens(input, hash, found));
    }
  }

  lemma {:induction false} CopyTokensEmittable(input: bytes, hash: HashFunction, found: Found)
    requires kInputMarginBytes <= |input| <= kBlockSize
    requires HashesInto(hash, |found.table|) && GoodMatch(input, found)
    ensures AllEmittable(CopyTokens(input, hash, found))
    decreases |input| - found.ip, 0
  {
    hide Encode, ElementBytes, MatchAt, Reprobe, Load;
    var m := MatchAt(input, found.ip, found.candidate);
    var ip, copy := found.ip + m, Copy(found.ip - found.candidate, m);
    if ip >= |input| - kInputMarginBytes {
      RemainderEmittable(input, ip);
      EmittableCons(copy, Remainder(input, ip));
    } else {
      var (candidate, table) := Reprobe(input, hash, found.table, ip);
      if Load(input, ip, 4) == Load(input, candidate, 4) {
        CopyTokensEmittable(input, hash, Found(ip, candidate, table));
        EmittableCons(copy, CopyTokens(input, hash, Found(ip, candidate, table)));
      } else {
        TokensEmittable(input, hash, table, ip);
        EmittableCons(copy, Tokens(input, hash, table, ip));
      }
    }
  }

  lemma FragmentEmittable(input: bytes, hash: HashFunction, tableSize: nat)
    requires |input| <= kBlockSize && HashesInto(hash, tableSize)
    ensures AllEmittable(FragmentTokens(input, hash, tableSize))
  {
    if |input| >= kInputMarginBytes {
      TokensEmittable(input, hash, Zeros(tableSize), 0);
    } else {
      RemainderEmittable(input, 0);
    }
  }

  // The encodings of what remains to be emitted, and how one round of the
  // main loop and of the copy loop unfolds them.
  ghost function RemainderCode(input: bytes, nextEmit: nat): bytes
    requires nextEmit <= |input| <= kBlockSize
  {
    if nextEmit < |input| then LiteralBytes(input[nextEmit..]) else []
  }

  ghost function TokensCode(input: bytes, hash: HashFunction, table: seq<nat>, nextEmit: nat): bytes
    requires Probing(input, hash, table, nextEmit + 1)
  {
    TokensEmittable(input, hash, table, nextEmit);
    Encode(Tokens(input, hash, table, nextEmit))
  }

  ghost function CopyCode(input: bytes, hash: HashFunction, found: Found): bytes
    requires kInputMarginBytes <= |input| <= kBlockSize
    requires HashesInto(hash, |found.table|) && GoodMatch(input, found)
  {
    CopyTokensEmittable(input, hash, found);
    Encode(CopyTokens(input, hash, found))
  }

  lemma RemainderEncodes(input: bytes, nextEmit: nat)
    requires nextEmit <= |input| <= kBlockSize
    ensures AllEmittable(Remainder(input, nextEmit))
    ensures Encode(Remainder(input, nextEmit)) == RemainderCode(input, nextEmit)
  {
    if nextEmit < |input| {
      var lit := Literal(input[nextEmit..]);
      assert [lit] + [] == [lit];
      EmittableCons(lit, []);
    }
  }

  lemma TokensCodeStep(input: bytes, hash: HashFunction, table: seq<nat>, nextEmit: nat)
    requires Probing(input, hash, table, nextEmit + 1)
    ensures TokensCode(input, hash, table, nextEmit) ==
            match Scan(input, hash, table, nextEmit + 1, 32) {
              case None => RemainderCode(input, nextEmit)
              case Some(found) => LiteralBytes(input[nextEmit..found.ip]) + CopyCode(input, hash, found)
            }
  {
    hide Scan, Encode, LiteralBytes;
    TokensEmittable(input, hash, table, nextEmit);
    match Scan(input, hash, table, nextEmit + 1, 32) {
      case None =>
        RemainderEncodes(input, nextEmit);
      case Some(found) =>
        CopyTokensEmittable(input, hash, found);
        EmittableCons(Literal(input[nextEmit..found.ip]), CopyTokens(input, hash, found));
    }
  }

  // After a copy has taken the match up to ip: stop, copy again, or go back
  // to scanning.
  ghost function AfterCopyCode(input: bytes, hash: HashFunction, table: seq<nat>, ip: nat): bytes
    requires kInputMarginBytes <= |input| <= kBlockSize && 0 < ip <= |input|
    requires HashesInto(hash, |table|) && TableBelow(table, ip)
  {
    if ip >= |input| - kInputMarginBytes then RemainderCode(input, ip)
    else
      var (candidate, table') := Reprobe(input, hash, table, ip);
      if Load(input, ip, 4) == Load(input, candidate, 4) then CopyCode(input, hash, Found(ip, candidate, table'))
      else TokensCode(input, hash, table', ip)
  }

  lemma CopyCodeStep(input: bytes, hash: HashFunction, found: Found)
    requires kInputMarginBytes <= |input| <= kBlockSize
    requires HashesInto(hash, |found.table|) && GoodMatch(input, found)
    ensures var m := MatchAt(input, found.ip, found.candidate);
            CopyCode(input, hash, found) ==
            CopyBytes(found.ip - found.candidate, m) + AfterCopyCode(input, hash, found.table, found.ip + m)
  {
    hide Encode, CopyBytes, MatchAt, Reprobe, Load, LiteralBytes;
    CopyTokensEmittable(input, hash, found);
    var m := MatchAt(input, found.ip, found.candidate);
    var ip, copy := found.ip + m, Copy(found.ip - found.candidate, m);
    if ip >= |input| - kInputMarginBytes {
      RemainderEncodes(input, ip);
      EmittableCons(copy, Remainder(input, ip));
    } else {
      var (candidate, table) := Reprobe(input, hash, found.table, ip);
      if Load(input, ip, 4) == Load(input, candidate, 4) {
        CopyTokensEmittable(input, hash, Found(ip, candidate, table));
        EmittableCons(copy, CopyTokens(input, hash, Found(ip, candidate, table)));
      } else {
        TokensEmittable(input, hash, table, ip);
        EmittableCons(copy, Tokens(input, hash, table, ip));
      }
    }
  }

  // The bytes CompressFragment produces for a block.
  ghost function FragmentBytes(input: bytes, hash: HashFunction, tableSize: nat): bytes
    requires |input| <= kBlockSize && HashesInto(hash, tableSize)
  {
    FragmentEmittable(input, hash, tableSize);
    Encode(FragmentTokens(input, hash, tableSize))
  }

  // ------------------------------------------------------------------
  // Encoding is inverted by parsing, up to the cutting of long copies
  // ------------------------------------------------------------------

  // The elements a decoder sees for one emitted element.
  ghost function ElementPieces(e: Element): seq<Element> {
    match e
    case Literal(_) => [e]
    case Copy(offset, len) => PieceElements(offset, Pieces(len))
  }

  ghost function AllPieces(els: seq<Element>): seq<Element> {
    if els == [] then [] else ElementPieces(els[0]) + AllPieces(els[1..])
  }

  lemma ElementRoundTrip(e: Element, out: bytes, limit: nat)
    requires Emittable(e)
    ensures ParseAll(ElementBytes(e)) == Some(ElementPieces(e))
    ensures Run(ElementPieces(e), out, limit) == Step(out, limit, e)
  {
    match e {
      case Literal(data) =>
        LiteralRoundTrip(data);
        RunCons(e, [], out, limit);
        assert [e] + [] == [e];
      case Copy(offset, len) =>
        CopyRoundTrip(offset, len, out, limit);
    }
  }

  lemma {:induction false} EncodeParses(els: seq<Element>)
    requires AllEmittable(els)
    ensures ParseAll(Encode(els)) == Some(AllPieces(els))
  {
    hide ParseElement, ElementBytes, ElementPieces;
    if els != [] {
      ElementRoundTrip(els[0], [], 0);
      EncodeParses(els[1..]);
      ParseAppend(ElementBytes(els[0]), Encode(els[1..]));
    }
  }

  lemma NotEmpty(e: Element)
    requires Emittable(e)
    ensures Literal([]) !in ElementPieces(e)
  {
    if e.Copy? {
      OnlyCopies(e.offset, Pieces(e.len));
    }
  }

  lemma {:induction false} OnlyCopies(offset: nat, lens: seq<nat>)
    ensures forall e :: e in PieceElements(offset, lens) ==> e.Copy?
  {
    if lens != [] {
      OnlyCopies(offset, lens[1..]);
    }
  }

  lemma {:induction false} NoneEmpty(els: seq<Element>)
    requires AllEmittable(els)
    ensures Literal([]) !in AllPieces(els)
  {
    hide ElementPieces;
    if els != [] {
      NotEmpty(els[0]);
      NoneEmpty(els[1..]);
    }
  }

  // A block's bytes form complete elements, none of them an empty literal.
  lemma FragmentParses(input: bytes, hash: HashFunction, tableSize: nat)
    requires |input| <= kBlockSize && HashesInto(hash, tableSize)
    ensures ParseAll(FragmentBytes(input, hash, tableSize)).Some?
    ensures !HasEmptyLiteral(FragmentBytes(input, hash, tableSize))
  {
    hide ParseAll, Encode;
    FragmentEmittable(input, hash, tableSize);
    EncodeParses(FragmentTokens(input, hash, tableSize));
    NoneEmpty(FragmentTokens(input, hash, tableSize));
  }

  lemma {:induction false} PiecesRunAlike(els: seq<Element>, out: bytes, limit: nat)
    requires AllEmittable(els)
    ensures Run(AllPieces(els), out, limit) == Run(els, out, limit)
  {
    hide ElementBytes, ElementPieces, Step;
    if els != [] {
      var rest := els[1..];
      ElementRoundTrip(els[0], out, limit);
      RunAppend(ElementPieces(els[0]), AllPieces(rest), out, limit);
      match Step(out, limit, els[0]) {
        case None =>
        case Some(next) => PiecesRunAlike(rest, next, limit);
      }
    }
  }

  // A block's bytes, whatever precedes and follows them, decode to the block
  // appended to the output: no copy reaches before the block.
  lemma FragmentDecodes(input: bytes, hash: HashFunction, tableSize: nat, rest: bytes, out: bytes, limit: nat)
    requires |input| <= kBlockSize && HashesInto(hash, tableSize) && |out| + |input| <= limit
    ensures DecodeTags(FragmentBytes(input, hash, tableSize) + rest, out, limit) == DecodeTags(rest, out + input, limit)
  {
    hide Run, ParseAll, Encode;
    var els, code := FragmentTokens(input, hash, tableSize), FragmentBytes(input, hash, tableSize);
    FragmentEmittable(input, hash, tableSize);
    EncodeParses(els);
    FragmentRuns(input, hash, tableSize, limit - |out|);
    RunAfterPrefix(out, els, [], limit - |out|);
    assert out + [] == out;
    PiecesRunAlike(els, out, limit);
    DecodeAppend(code, rest, out, limit);
  }

  lemma DecodeAppend(a: bytes, b: bytes, out: bytes, limit: nat)
    requires ParseAll(a).Some? && Run(ParseAll(a).value, out, limit).Some?
    ensures DecodeTags(a + b, out, limit) == DecodeTags(b, Run(ParseAll(a).value, out, limit).value, limit)
  {
    hide ParseElement, Step;
    var els := ParseAll(a).value;
    DecodeIsParseThenRun(a + b, out, limit);
    ParseAppend(a, b);
    var mid := Run(els, out, limit).value;
    DecodeIsParseThenRun(b, mid, limit);
    match ParseAll(b) {
      case None =>
      case Some(more) => RunAppend(els, more, out, limit);
    }
  }

  // If the block does not fit under the limit, its bytes are rejected.
  lemma FragmentRejected(input: bytes, hash: HashFunction, tableSize: nat, rest: bytes, out: bytes, limit: nat)
    requires |input| <= kBlockSize && HashesInto(hash, tableSize) && |out| <= limit < |out| + |input|
    ensures DecodeTags(FragmentBytes(input, hash, tableSize) + rest, out, limit) == None
  {
    hide ParseAll, Encode, Step;
    var els, code := FragmentTokens(input, hash, tableSize), FragmentBytes(input, hash, tableSize);
    FragmentEmittable(input, hash, tableSize);
    EncodeParses(els);
    FragmentRuns(input, hash, tableSize, |input|);
    RunAfterPrefix(out, els, [], |input|);
    assert out + [] == out;
    RunLimitDown(els, out, |out| + |input|, limit);
    PiecesRunAlike(els, out, limit);
    DecodeIsParseThenRun(code + rest, out, limit);
    ParseAppend(code, rest);
    match ParseAll(rest) {
      case None =>
      case Some(more) => RunAppend(AllPieces(els), more, out, limit);
    }
  }

  // ------------------------------------------------------------------
  // Size: one byte in 61 for the literals, one for the last of them
  // ------------------------------------------------------------------

  lemma QuotientsAdd(a: nat, b: nat)
    ensures a / 61 + b / 61 <= (a + b) / 61
  {}

  lemma RemainderSize(input: bytes, nextEmit: nat)
    requires nextEmit <= |input| <= kBlockSize
    ensures var left := |input| - nextEmit;
            |RemainderCode(input, nextEmit)| <= left + left / 61 + if left > 0 then 1 else 0
  {
    if nextEmit < |input| {
      LiteralBytesSize(input[nextEmit..]);
    }
  }

  lemma {:induction false} TokensSize(input: bytes, hash: HashFunction, table: seq<nat>, nextEmit: nat)
    requires Probing(input, hash, table, nextEmit + 1)
    ensures var left := |input| - nextEmit; |TokensCode(input, hash, table, nextEmit)| <= left + left / 61 + 1
    decreases |input| - nextEmit, 1
  {
    hide Scan, TokensCode, CopyCode, RemainderCode, LiteralBytes, LiteralHeader;
    TokensCodeStep(input, hash, table, nextEmit);
    match Scan(input, hash, table, nextEmit + 1, 32) {
      case None =>
        RemainderSize(input, nextEmit);
      case Some(found) =>
        CopyTokensSize(input, hash, found);
        LiteralBytesSize(input[nextEmit..found.ip]);
        QuotientsAdd(found.ip - nextEmit, |input| - found.ip);
    }
  }

  lemma {:induction false} CopyTokensSize(input: bytes, hash: HashFunction, found: Found)
    requires kInputMarginBytes <= |input| <= kBlockSize
    requires HashesInto(hash, |found.table|) && GoodMatch(input, found)
    ensures var left := |input| - found.ip; |CopyCode(input, hash, found)| <= left + left / 61
    decreases |input| - found.ip, 0
  {
    hide TokensCode, CopyCode, RemainderCode, CopyBytes, MatchAt, Reprobe, Load;
    var m := MatchAt(input, found.ip, found.candidate);
    var ip := found.ip + m;
    CopyCodeStep(input, hash, found);
    CopyBytesSize(found.ip - found.candidate, m);
    QuotientsAdd(m, |input| - ip);
    if ip >= |input| - kInputMarginBytes {
      RemainderSize(input, ip);
    } else {
      var (candidate, table) := Reprobe(input, hash, found.table, ip);
      if Load(input, ip, 4) == Load(input, candidate, 4) {
        CopyTokensSize(input, hash, Found(ip, candidate, table));
      } else {
        TokensSize(input, hash, table, ip);
      }
    }
  }

  lemma FragmentUnfolds(input: bytes, hash: HashFunction, tableSize: nat)
    requires |input| <= kBlockSize && HashesInto(hash, tableSize)
    ensures FragmentBytes(input, hash, tableSize) ==
            if |input| >= kInputMarginBytes then TokensCode(input, hash, Zeros(tableSize), 0)
            else RemainderCode(input, 0)
  {
    RemainderEncodes(input, 0);
  }

  lemma FragmentSize(input: bytes, hash: HashFunction, tableSize: nat)
    requires |input| <= kBlockSize && HashesInto(hash, tableSize)
    ensures |FragmentBytes(input, hash, tableSize)| <= |input| + |input| / 61 + 1
  {
    hide FragmentBytes, TokensCode, RemainderCode;
    FragmentUnfolds(input, hash, tableSize);
    if |input| >= kInputMarginBytes {
      TokensSize(input, hash, Zeros(tableSize), 0);
    } else {
      RemainderSize(input, 0);
    }
  }
}
