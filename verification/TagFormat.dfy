// The element encoding: section 2 of the Snappy compressed format description
// read as a parser, the compressor's emitters as its right inverse.

module TagFormat {
  import opened Machine
  import opened Lz77
  import opened TagTable

  // ------------------------------------------------------------------
  // Parsing
  // ------------------------------------------------------------------

  datatype Parsed = Parsed(element: Element, size: nat)

  // The first element of s, if it is complete.  A literal of more than 60
  // bytes has its length minus one in 1..4 extra bytes; the source adds the
  // one back in 32 bits, so the length field 0xFFFFFFFF is an empty literal.
  function ParseElement(s: bytes): (p: Option<Parsed>)
    requires s != []
    ensures p.Some? ==> 0 < p.value.size <= |s|
  {
    var c := s[0];
    var start := 1 + ExtraOf(c);
    if start > |s| then None
    else if c % 4 == 0 then
      var len := LiteralLength(s);
      if start + len <= |s| then Some(Parsed(Literal(s[start..start + len]), start + len)) else None
    else
      Some(Parsed(Copy(HighOffset(c) + Load(s, 1, ExtraOf(c)), LengthOf(c)), start))
  }

  function LiteralLength(s: bytes): (len: nat)
    requires s != [] && 1 + ExtraOf(s[0]) <= |s|
  {
    if s[0] / 4 < 60 then s[0] / 4 + 1 else (Load(s, 1, ExtraOf(s[0])) + 1) % 0x1_0000_0000
  }

  lemma LiteralElement(s: bytes, size: nat, len: nat)
    requires s != [] && s[0] % 4 == 0 && size == 1 + ExtraOf(s[0]) <= |s| && len == LiteralLength(s)
    ensures ParseElement(s) ==
            if size + len <= |s| then Some(Parsed(Literal(s[size..size + len]), size + len)) else None
  {
    hide LiteralLength, ExtraOf, Load;
  }

  // Section 2.1 of the format description as it is written: the length minus
  // one is stored, so the largest length field stands for 2^32 bytes.  Copies
  // are read as above.
  function FormatElement(s: bytes): (p: Option<Parsed>)
    requires s != []
    ensures p.Some? ==> 0 < p.value.size <= |s|
  {
    var size := 1 + ExtraOf(s[0]);
    if s[0] % 4 != 0 then ParseElement(s)
    else if size > |s| then None
    else
      var len := if s[0] / 4 < 60 then s[0] / 4 + 1 else Load(s, 1, ExtraOf(s[0])) + 1;
      if size + len <= |s| then Some(Parsed(Literal(s[size..size + len]), size + len)) else None
  }

  // A literal tag with the length field 0xFFFFFFFF.
  predicate Wrapped(s: bytes) {
    [0xFC, 0xFF, 0xFF, 0xFF, 0xFF] <= s
  }

  lemma LargestField(s: bytes)
    requires s != [] && s[0] % 4 == 0 && s[0] / 4 >= 60 && 1 + ExtraOf(s[0]) <= |s|
    ensures Load(s, 1, ExtraOf(s[0])) <= 0xFFFF_FFFF
    ensures Load(s, 1, ExtraOf(s[0])) == 0xFFFF_FFFF <==> Wrapped(s)
  {
    hide Load, Pow2;
    var extra := ExtraOf(s[0]);
    LoadBound(s, 1, extra);
    Pow2Values();
    if extra < 4 {
      Pow2Add(8, 16);
      Pow2Monotone(8 * extra, 24);
    } else {
      var ones: bytes := [0xFF, 0xFF, 0xFF, 0xFF];
      LoadOnes(ones);
      LoadEqual(s, 1, ones, 0, 4);
      assert s[..5] == [s[0]] + s[1..5];
      assert [s[0]] + ones == [s[0], 0xFF, 0xFF, 0xFF, 0xFF];
      assert Wrapped(s) ==> s[1..5] == s[..5][1..] == ones;
    }
  }

  lemma LoadOnes(s: bytes)
    requires s == [0xFF, 0xFF, 0xFF, 0xFF]
    ensures Load(s, 0, 4) == 0xFFFF_FFFF
  {
    assert Load(s, 4, 0) == 0 && Load(s, 3, 1) == 0xFF && Load(s, 2, 2) == 0xFFFF && Load(s, 1, 3) == 0xFF_FFFF;
  }

  // The decompressor reads an element as the format says unless its length
  // field is 0xFFFFFFFF.  It takes that one for an empty literal, the only
  // one there is; the format has 2^32 bytes there.
  lemma ReadingsAgree(s: bytes)
    requires s != []
    ensures FormatElement(s) == ParseElement(s) <==> !Wrapped(s)
    ensures Wrapped(s) ==> ParseElement(s) == Some(Parsed(Literal([]), 5))
    ensures Wrapped(s) && FormatElement(s).Some? ==>
              FormatElement(s).value.element.Literal? && |FormatElement(s).value.element.data| == 0x1_0000_0000
    ensures ParseElement(s).Some? && ParseElement(s).value.element == Literal([]) ==> Wrapped(s)
  {
    hide Load;
    var size := 1 + ExtraOf(s[0]);
    if s[0] % 4 == 0 && size <= |s| && s[0] / 4 >= 60 {
      LargestField(s);
      assert Wrapped(s) ==> size == 5 && s[5..5] == [];
    }
  }

  function ParseAll(s: bytes): Option<seq<Element>> {
    if s == [] then Some([])
    else
      match ParseElement(s)
      case None => None
      case Some(p) =>
        match ParseAll(s[p.size..])
        case None => None
        case Some(els) => Some([p.element] + els)
  }

  // The streaming decoder: parse an element, execute it, continue.
  function DecodeTags(s: bytes, out: bytes, limit: nat): Option<bytes>
    decreases |s|
  {
    if s == [] then Some(out)
    else
      match ParseElement(s)
      case None => None
      case Some(p) =>
        match Step(out, limit, p.element)
        case None => None
        case Some(next) => DecodeTags(s[p.size..], next, limit)
  }

  // Interleaving makes no difference: decoding is parsing followed by running.
  lemma {:induction false} DecodeIsParseThenRun(s: bytes, out: bytes, limit: nat)
    ensures DecodeTags(s, out, limit) ==
            match ParseAll(s) { case None => None case Some(els) => Run(els, out, limit) }
    decreases |s|
  {
    if s != [] {
      match ParseElement(s) {
        case None =>
        case Some(p) =>
          var rest := s[p.size..];
          match Step(out, limit, p.element) {
            case None =>
              match ParseAll(rest) {
                case None =>
                case Some(els) => assert ([p.element] + els)[0] == p.element;
              }
            case Some(next) =>
              DecodeIsParseThenRun(rest, next, limit);
              match ParseAll(rest) {
                case None =>
                case Some(els) => assert ([p.element] + els)[1..] == els;
              }
          }
      }
    }
  }

  // The streaming decoder with the format's reading of literals.
  function FormatTags(s: bytes, out: bytes, limit: nat): Option<bytes>
    decreases |s|
  {
    if s == [] then Some(out)
    else
      match FormatElement(s)
      case None => None
      case Some(p) =>
        match Step(out, limit, p.element)
        case None => None
        case Some(next) => FormatTags(s[p.size..], next, limit)
  }

  // Some element has the length field 0xFFFFFFFF.
  predicate HasEmptyLiteral(s: bytes) {
    ParseAll(s).Some? && Literal([]) in ParseAll(s).value
  }

  lemma FirstOrLater(s: bytes)
    requires s != [] && ParseElement(s).Some?
    ensures var p := ParseElement(s).value;
            && (ParseAll(s).Some? <==> ParseAll(s[p.size..]).Some?)
            && (HasEmptyLiteral(s) <==> ParseAll(s).Some? && (p.element == Literal([]) || HasEmptyLiteral(s[p.size..])))
  {
    hide ParseElement;
  }

  lemma WrappedRejected(s: bytes, out: bytes, limit: nat)
    requires Wrapped(s) && limit < 0x1_0000_0000
    ensures FormatTags(s, out, limit) == None
  {
    hide FormatElement, ParseElement;
    ReadingsAgree(s);
  }

  // Under a 32-bit limit the format's reading rejects what has such an
  // element, and otherwise there is no difference.
  lemma {:induction false} FormatTagsExactly(s: bytes, out: bytes, limit: nat)
    requires limit < 0x1_0000_0000
    ensures FormatTags(s, out, limit) == if HasEmptyLiteral(s) then None else DecodeTags(s, out, limit)
    decreases |s|
  {
    hide ParseElement, FormatElement, Step, Wrapped, HasEmptyLiteral, ParseAll;
    if s == [] {
      NothingParsed();
    } else if Wrapped(s) {
      ReadingsAgree(s);
      FirstOrLater(s);
      WrappedRejected(s, out, limit);
      DecodeIsParseThenRun(s, out, limit);
    } else {
      ReadingsAgree(s);
      match ParseElement(s) {
        case None => NotParsed(s);
        case Some(p) =>
          FirstOrLater(s);
          DecodeIsParseThenRun(s, out, limit);
          match Step(out, limit, p.element) {
            case None =>
            case Some(next) => FormatTagsExactly(s[p.size..], next, limit);
          }
      }
    }
  }

  lemma NothingParsed()
    ensures ParseAll([]).Some? && !HasEmptyLiteral([])
  {}

  lemma NotParsed(s: bytes)
    requires s != [] && ParseElement(s) == None
    ensures !HasEmptyLiteral(s)
  {}

  lemma SliceOfPrefix(s: bytes, t: bytes, i: nat, j: nat)
    requires i <= j <= |s|
    ensures (s + t)[i..j] == s[i..j]
  {}

  lemma SameLiteralLength(s: bytes, t: bytes)
    requires s != [] && 1 + ExtraOf(s[0]) <= |s|
    ensures (s + t)[0] == s[0]
    ensures Load(s + t, 1, ExtraOf(s[0])) == Load(s, 1, ExtraOf(s[0]))
    ensures LiteralLength(s + t) == LiteralLength(s)
  {
    hide Load;
    var extra := ExtraOf(s[0]);
    SliceOfPrefix(s, t, 1, 1 + extra);
    LoadLocal(s + t, 1, s, 1, extra);
  }

  // An element parses the same whatever follows it.
  lemma ParsePrefix(s: bytes, t: bytes)
    requires s != [] && ParseElement(s).Some?
    ensures ParseElement(s + t) == ParseElement(s)
  {
    hide Load, LiteralLength;
    SameLiteralLength(s, t);
    if s[0] % 4 == 0 {
      var size, len := 1 + ExtraOf(s[0]), LiteralLength(s);
      SliceOfPrefix(s, t, size, size + len);
    }
  }

  // Streams concatenate.
  lemma {:induction false} ParseAppend(a: bytes, b: bytes)
    requires ParseAll(a).Some?
    ensures ParseAll(a + b) ==
            match ParseAll(b) { case None => None case Some(els) => Some(ParseAll(a).value + els) }
    decreases |a|
  {
    hide ParseElement;
    if a == [] {
      assert a + b == b;
      match ParseAll(b) {
        case None =>
        case Some(els) => assert [] + els == els;
      }
    } else {
      var p := ParseElement(a).value;
      var rest := a[p.size..];
      ParsePrefix(a, b);
      ParseAppend(rest, b);
      assert (a + b)[p.size..] == rest + b;
      match ParseAll(b) {
        case None =>
        case Some(els) => Reassociate(p.element, ParseAll(rest).value, els);
      }
    }
  }

  lemma Reassociate(e: Element, els: seq<Element>, more: seq<Element>)
    ensures [e] + (els + more) == ([e] + els) + more
  {}

  lemma ParseOne(s: bytes, e: Element)
    requires s != [] && ParseElement(s) == Some(Parsed(e, |s|))
    ensures ParseAll(s) == Some([e])
  {
    hide ParseElement;
    assert s[|s|..] == [];
    assert ParseAll([]) == Some([]);
    assert [e] + [] == [e];
  }

  // ------------------------------------------------------------------
  // Emitting
  // ------------------------------------------------------------------

  // The little-endian digits of n, as many as it has.
  function Digits(n: nat): bytes {
    if n == 0 then [] else [n % 0x100] + Digits(n / 0x100)
  }

  lemma {:induction false} DigitsLoad(n: nat, s: bytes, i: nat)
    requires i + |Digits(n)| <= |s| && s[i..i + |Digits(n)|] == Digits(n)
    ensures Load(s, i, |Digits(n)|) == n
  {
    if n > 0 {
      var d := Digits(n / 0x100);
      assert s[i] == s[i..i + |Digits(n)|][0];
      assert s[i + 1..i + 1 + |d|] == s[i..i + |Digits(n)|][1..];
      DigitsLoad(n / 0x100, s, i + 1);
    }
  }

  // At most 4 digits for a 32-bit length, at most 1 below 2^8, 2 below 2^16.
  lemma DigitsLength(n: uint32)
    ensures n > 0 ==> 1 <= |Digits(n)| <= 4
    ensures n < 0x100 ==> |Digits(n)| <= 1
    ensures n < 0x1_0000 ==> |Digits(n)| <= 2
  {
    var n1, n2, n3 := n / 0x100, n / 0x1_0000, n / 0x100_0000;
    assert n1 / 0x100 == n2 && n2 / 0x100 == n3 && n3 / 0x100 == 0;
    assert Digits(0) == [];
    assert |Digits(n3)| <= 1;
    assert |Digits(n2)| <= 2;
    assert |Digits(n1)| <= 3;
  }

  // EmitLiteral: a tag byte, for long literals the length bytes, the data.
  function LiteralHeader(len: nat): bytes
    requires 1 <= len <= 0x1_0000_0000
  {
    var n := len - 1;
    if n < 60 then [4 * n] else
      DigitsLength(n);
      [4 * (59 + |Digits(n)|)] + Digits(n)
  }

  function LiteralBytes(data: bytes): bytes
    requires 1 <= |data| <= 0x1_0000_0000
  {
    LiteralHeader(|data|) + data
  }

  // EmitCopyLessThan64.
  function ShortCopyBytes(offset: nat, len: nat): bytes
    requires 4 <= len <= 64 && offset < 0x1_0000
  {
    if len < 12 && offset < 2048 then
      [1 + (len - 4) * 4 + offset / 0x100 * 32, offset % 0x100]
    else
      [2 + (len - 1) * 4, offset % 0x100, offset / 0x100]
  }

  // The pieces EmitCopy cuts a long copy into.
  function Pieces(len: nat): seq<nat> {
    if len >= 68 then [64] + Pieces(len - 64)
    else if len > 64 then [60, len - 60]
    else [len]
  }

  function PieceBytes(offset: nat, lens: seq<nat>): bytes
    requires offset < 0x1_0000 && forall i :: 0 <= i < |lens| ==> 4 <= lens[i] <= 64
  {
    if lens == [] then [] else ShortCopyBytes(offset, lens[0]) + PieceBytes(offset, lens[1..])
  }

  function PieceElements(offset: nat, lens: seq<nat>): seq<Element> {
    if lens == [] then [] else [Copy(offset, lens[0])] + PieceElements(offset, lens[1..])
  }

  function Total(lens: seq<nat>): nat {
    if lens == [] then 0 else lens[0] + Total(lens[1..])
  }

  // EmitCopy never leaves a piece outside 4..64, and the pieces add up.
  lemma {:induction false} PiecesFit(len: nat)
    requires len >= 4
    ensures forall i :: 0 <= i < |Pieces(len)| ==> 4 <= Pieces(len)[i] <= 64
    ensures Total(Pieces(len)) == len && Pieces(len) != []
  {
    if len >= 68 {
      PiecesFit(len - 64);
      assert Pieces(len)[1..] == Pieces(len - 64);
    } else if len > 64 {
      assert Pieces(len)[1..] == [len - 60];
      assert Total([len - 60]) == len - 60 + Total([]);
    } else {
      assert Total([len]) == len + Total([]);
    }
  }

  function CopyBytes(offset: nat, len: nat): bytes
    requires len >= 4 && offset < 0x1_0000
  {
    PiecesFit(len);
    PieceBytes(offset, Pieces(len))
  }

  // ------------------------------------------------------------------
  // Emitting is inverted by parsing
  // ------------------------------------------------------------------

  lemma LiteralRoundTrip(data: bytes)
    requires 1 <= |data| <= 0x1_0000_0000 - 1
    ensures ParseAll(LiteralBytes(data)) == Some([Literal(data)])
  {
    hide ParseElement, Load;
    var s, n := LiteralBytes(data), |data| - 1;
    if n < 60 {
      assert s == [4 * n] + data;
      LiteralElement(s, 1, n + 1);
      assert s[1..1 + (n + 1)] == data;
    } else {
      LongHeader(n, s, data);
      var start := 1 + |Digits(n)|;
      LiteralElement(s, start, n + 1);
      assert s[start..start + (n + 1)] == data;
    }
    ParseOne(s, Literal(data));
  }

  lemma LongHeader(n: nat, s: bytes, data: bytes)
    requires 60 <= n < 0xFFFF_FFFF && |data| == n + 1 && s == LiteralBytes(data)
    ensures 1 <= |Digits(n)| <= 4 && |s| == 1 + |Digits(n)| + |data| && s[1 + |Digits(n)|..] == data
    ensures s[0] % 4 == 0 && s[0] / 4 >= 60 && ExtraOf(s[0]) == |Digits(n)| && Load(s, 1, |Digits(n)|) == n
  {
    hide Digits, Load;
    var d := Digits(n);
    DigitsLength(n);
    assert s == [4 * (59 + |d|)] + d + data;
    assert s[1..1 + |d|] == d;
    DigitsLoad(n, s, 1);
  }

  lemma ShortCopyRoundTrip(offset: nat, len: nat)
    requires 4 <= len <= 64 && offset < 0x1_0000
    ensures ParseAll(ShortCopyBytes(offset, len)) == Some([Copy(offset, len)])
  {
    if len < 12 && offset < 2048 {
      ShortestCopyParses(offset, len);
    } else {
      TwoByteCopyParses(offset, len);
    }
    hide ShortCopyBytes;
    ParseOne(ShortCopyBytes(offset, len), Copy(offset, len));
  }

  lemma ShortestCopyParses(offset: nat, len: nat)
    requires 4 <= len < 12 && offset < 2048
    ensures ParseElement(ShortCopyBytes(offset, len)) == Some(Parsed(Copy(offset, len), 2))
    ensures |ShortCopyBytes(offset, len)| == 2
  {
    var s := ShortCopyBytes(offset, len);
    var c := s[0];
    assert c % 4 == 1 && c / 4 % 8 == len - 4 && c / 32 == offset / 0x100;
    assert Load(s, 2, 0) == 0;
    assert Load(s, 1, 1) == offset % 0x100;
  }

  lemma TwoByteCopyParses(offset: nat, len: nat)
    requires 4 <= len <= 64 && offset < 0x1_0000 && !(len < 12 && offset < 2048)
    ensures ParseElement(ShortCopyBytes(offset, len)) == Some(Parsed(Copy(offset, len), 3))
    ensures |ShortCopyBytes(offset, len)| == 3
  {
    var s := ShortCopyBytes(offset, len);
    var c := s[0];
    assert c % 4 == 2 && c / 4 == len - 1;
    assert Load(s, 3, 0) == 0;
    assert Load(s, 2, 1) == offset / 0x100;
    assert Load(s, 1, 2) == offset;
  }

  lemma {:induction false} PiecesRoundTrip(offset: nat, lens: seq<nat>)
    requires offset < 0x1_0000 && forall i :: 0 <= i < |lens| ==> 4 <= lens[i] <= 64
    ensures ParseAll(PieceBytes(offset, lens)) == Some(PieceElements(offset, lens))
  {
    hide ParseElement, ShortCopyBytes;
    if lens != [] {
      ShortCopyRoundTrip(offset, lens[0]);
      PiecesRoundTrip(offset, lens[1..]);
      ParseAppend(ShortCopyBytes(offset, lens[0]), PieceBytes(offset, lens[1..]));
    }
  }

  // The pieces run as the one long copy they were cut from, accepting and
  // rejecting alike.
  lemma {:induction false} PiecesRun(offset: nat, lens: seq<nat>, out: bytes, limit: nat)
    requires lens != [] && forall i :: 0 <= i < |lens| ==> lens[i] > 0
    ensures Run(PieceElements(offset, lens), out, limit) == Step(out, limit, Copy(offset, Total(lens)))
  {
    var els, rest := PieceElements(offset, lens), lens[1..];
    assert els[1..] == PieceElements(offset, rest);
    match Step(out, limit, els[0]) {
      case None =>
      case Some(next) =>
        if rest == [] {
          assert Total(lens) == lens[0] + Total([]);
        } else {
          PiecesRun(offset, rest, next, limit);
          CopyBackSplit(out, offset, lens[0], Total(rest));
        }
    }
  }

  // EmitCopy parses back to pieces of that offset, 4 to 64 bytes long, that
  // together run as the one copy.
  lemma CopyRoundTrip(offset: nat, len: nat, out: bytes, limit: nat)
    requires len >= 4 && offset < 0x1_0000
    ensures ParseAll(CopyBytes(offset, len)) == Some(PieceElements(offset, Pieces(len)))
    ensures forall i :: 0 <= i < |Pieces(len)| ==> 4 <= Pieces(len)[i] <= 64
    ensures Total(Pieces(len)) == len
    ensures Run(PieceElements(offset, Pieces(len)), out, limit) == Step(out, limit, Copy(offset, len))
  {
    PiecesFit(len);
    PiecesRoundTrip(offset, Pieces(len));
    PiecesRun(offset, Pieces(len), out, limit);
  }

  // Every copy of at least four bytes takes fewer bytes than it stands for.
  lemma {:induction false} PieceBytesSize(offset: nat, lens: seq<nat>)
    requires offset < 0x1_0000 && forall i :: 0 <= i < |lens| ==> 4 <= lens[i] <= 64
    ensures |PieceBytes(offset, lens)| + |lens| <= Total(lens)
    ensures |PieceBytes(offset, lens)| <= 3 * |lens|
  {
    if lens != [] {
      PieceBytesSize(offset, lens[1..]);
    }
  }

  lemma CopyBytesSize(offset: nat, len: nat)
    requires len >= 4 && offset < 0x1_0000
    ensures |CopyBytes(offset, len)| < len
  {
    PiecesFit(len);
    PieceBytesSize(offset, Pieces(len));
  }

  // A literal costs one byte up to 60, two up to 256, three up to 65536.
  lemma LiteralBytesSize(data: bytes)
    requires 1 <= |data| <= 0x1_0000
    ensures |LiteralHeader(|data|)| <= 1 + |data| / 61
    ensures |LiteralBytes(data)| == |LiteralHeader(|data|)| + |data|
  {
    DigitsLength(|data| - 1);
  }

  // How long the encodings are exactly: as short as the format allows for a
  // literal, two or three bytes for a copy of up to 64 bytes.
  lemma LiteralHeaderLength(len: nat)
    requires 1 <= len <= 0x1_0000_0000
    ensures |LiteralHeader(len)| == if len <= 60 then 1 else if len <= 0x100 then 2 else if len <= 0x1_0000 then 3
                                    else if len <= 0x100_0000 then 4 else 5
  {
    if len > 60 {
      DigitsCount(len - 1);
    }
  }

  lemma DigitsCount(n: uint32)
    ensures |Digits(n)| == if n == 0 then 0 else if n < 0x100 then 1 else if n < 0x1_0000 then 2
                           else if n < 0x100_0000 then 3 else 4
  {
    var n1, n2, n3 := n / 0x100, n / 0x1_0000, n / 0x100_0000;
    assert n1 / 0x100 == n2 && n2 / 0x100 == n3 && n3 / 0x100 == 0;
    assert Digits(0) == [];
    assert |Digits(n3)| == if n3 == 0 then 0 else 1;
    assert |Digits(n2)| == if n2 == 0 then 0 else 1 + |Digits(n3)|;
    assert |Digits(n1)| == if n1 == 0 then 0 else 1 + |Digits(n2)|;
  }

  lemma ShortCopyLength(offset: nat, len: nat)
    requires 4 <= len <= 64 && offset < 0x1_0000
    ensures |ShortCopyBytes(offset, len)| == if len < 12 && offset < 2048 then 2 else 3
  {}

  // A copy is cut into as few pieces as 64 bytes each allow.  All take three
  // bytes but a last one of less than 12 bytes from a near offset.
  lemma {:induction false} CopyBytesLength(offset: nat, len: nat)
    requires len >= 4 && offset < 0x1_0000
    ensures |Pieces(len)| == (len + 63) / 64
    ensures |CopyBytes(offset, len)| == 3 * ((len + 63) / 64) - if offset < 2048 && 1 <= len % 64 < 12 then 1 else 0
    decreases len
  {
    hide ShortCopyBytes;
    PiecesFit(len);
    var lens := Pieces(len);
    if len >= 68 {
      CopyBytesLength(offset, len - 64);
      PiecesFit(len - 64);
      assert lens[1..] == Pieces(len - 64);
      ShortCopyLength(offset, 64);
    } else if len > 64 {
      assert lens[1..] == [len - 60] && lens[1..][1..] == [];
      ShortCopyLength(offset, 60);
      ShortCopyLength(offset, len - 60);
      assert |PieceBytes(offset, lens[1..])| == |ShortCopyBytes(offset, len - 60)|;
    } else {
      assert lens[1..] == [];
      ShortCopyLength(offset, len);
    }
  }
}
