// Every form an element can take, spelled out byte by byte: sections 2.1 and
// 2.2.1 to 2.2.3 of the Snappy compressed format description as equations
// about tag bytes, lengths and offsets, for the forms the compressor never
// writes as well.

module ElementForms {
  import opened Machine
  import opened Lz77
  import opened TagTable
  import opened TagFormat

  lemma LoadOne(s: bytes, i: nat)
    requires i + 1 <= |s|
    ensures Load(s, i, 1) == s[i]
  {
    assert Load(s, i + 1, 0) == 0;
  }

  lemma LoadTwo(s: bytes, i: nat)
    requires i + 2 <= |s|
    ensures Load(s, i, 2) == s[i] + 0x100 * (s[i + 1] as int)
  {
    LoadOne(s, i + 1);
  }

  lemma LoadThree(s: bytes, i: nat)
    requires i + 3 <= |s|
    ensures Load(s, i, 3) == s[i] + 0x100 * (s[i + 1] as int) + 0x1_0000 * (s[i + 2] as int)
  {
    LoadTwo(s, i + 1);
  }

  lemma LoadFour(s: bytes, i: nat)
    requires i + 4 <= |s|
    ensures Load(s, i, 4) ==
            s[i] + 0x100 * (s[i + 1] as int) + 0x1_0000 * (s[i + 2] as int) + 0x100_0000 * (s[i + 3] as int)
  {
    LoadThree(s, i + 1);
  }

  lemma LoadBytes(s: bytes, i: nat, n: nat)
    requires 1 <= n <= 4 && i + n <= |s|
    ensures n == 1 ==> Load(s, i, n) == s[i]
    ensures n == 2 ==> Load(s, i, n) == s[i] + 0x100 * (s[i + 1] as int)
    ensures n == 3 ==> Load(s, i, n) == s[i] + 0x100 * (s[i + 1] as int) + 0x1_0000 * (s[i + 2] as int)
    ensures n == 4 ==>
              Load(s, i, n) ==
              s[i] + 0x100 * (s[i + 1] as int) + 0x1_0000 * (s[i + 2] as int) + 0x100_0000 * (s[i + 3] as int)
  {
    hide Load;
    if n == 1 {
      LoadOne(s, i);
    } else if n == 2 {
      LoadTwo(s, i);
    } else if n == 3 {
      LoadThree(s, i);
    } else {
      LoadFour(s, i);
    }
  }

  // Copies with a 1-, a 2- and a 4-byte offset, complete or not.
  lemma NearCopy(s: bytes)
    requires s != [] && s[0] % 4 == 1
    ensures ParseElement(s) ==
            if |s| < 2 then None else Some(Parsed(Copy((s[0] as int) / 32 * 0x100 + s[1], 4 + s[0] / 4 % 8), 2))
  {
    hide Load;
    if |s| >= 2 {
      LoadOne(s, 1);
    }
  }

  lemma FarCopy(s: bytes)
    requires s != [] && s[0] % 4 == 2
    ensures ParseElement(s) ==
            if |s| < 3 then None else Some(Parsed(Copy(s[1] + 0x100 * (s[2] as int), s[0] / 4 + 1), 3))
  {
    hide Load;
    if |s| >= 3 {
      LoadTwo(s, 1);
    }
  }

  lemma FarthestCopy(s: bytes)
    requires s != [] && s[0] % 4 == 3
    ensures ParseElement(s) ==
            if |s| < 5 then None
            else
              var offset := s[1] + 0x100 * (s[2] as int) + 0x1_0000 * (s[3] as int) + 0x100_0000 * (s[4] as int);
              Some(Parsed(Copy(offset, s[0] / 4 + 1), 5))
  {
    hide Load;
    if |s| >= 5 {
      LoadFour(s, 1);
    }
  }

  // A literal of len bytes behind its tag and `extra` length bytes.
  ghost predicate IsLiteral(p: Option<Parsed>, s: bytes, extra: nat, len: nat) {
    p == if 1 + extra + len <= |s| then Some(Parsed(Literal(s[1 + extra..1 + extra + len]), 1 + extra + len)) else None
  }

  // The length in the tag.
  lemma ShortLiteral(s: bytes)
    requires s != [] && s[0] % 4 == 0 && s[0] / 4 < 60
    ensures IsLiteral(ParseElement(s), s, 0, s[0] / 4 + 1)
  {}

  // The length in one to four bytes behind the tag.
  lemma LongLiteral(s: bytes, extra: nat)
    requires s != [] && s[0] % 4 == 0 && 1 <= extra <= 4 && s[0] / 4 == 59 + extra
    ensures |s| < 1 + extra ==> ParseElement(s) == None
    ensures extra == 1 && |s| >= 2 ==> IsLiteral(ParseElement(s), s, 1, s[1] as int + 1)
    ensures extra == 2 && |s| >= 3 ==> IsLiteral(ParseElement(s), s, 2, s[1] + 0x100 * (s[2] as int) + 1)
    ensures extra == 3 && |s| >= 4 ==>
              IsLiteral(ParseElement(s), s, 3, s[1] + 0x100 * (s[2] as int) + 0x1_0000 * (s[3] as int) + 1)
    ensures extra == 4 && |s| >= 5 ==>
              IsLiteral(ParseElement(s), s, 4, (s[1] + 0x100 * (s[2] as int) + 0x1_0000 * (s[3] as int) +
                                                0x100_0000 * (s[4] as int) + 1) % 0x1_0000_0000)
  {
    hide Load;
    if |s| >= 1 + extra {
      hide IsLiteral;
      LiteralBehind(s, extra);
      LoadBytes(s, 1, extra);
    }
  }

  lemma LiteralBehind(s: bytes, extra: nat)
    requires s != [] && s[0] % 4 == 0 && 1 <= extra <= 4 && s[0] / 4 == 59 + extra && 1 + extra <= |s|
    ensures IsLiteral(ParseElement(s), s, extra, (Load(s, 1, extra) + 1) % 0x1_0000_0000)
  {
    hide Load;
  }

  // The same from the other side: which bytes stand for a given copy.
  lemma CopyForms(len: nat, b0: byte, b1: byte, b2: byte, b3: byte, rest: bytes)
    requires 1 <= len <= 64
    ensures 4 <= len < 12 && b1 < 8 ==>
              ParseElement([1 + 4 * (len - 4) + 32 * b1, b0] + rest) == Some(Parsed(Copy(b0 + 0x100 * b1, len), 2))
    ensures ParseElement([2 + 4 * (len - 1), b0, b1] + rest) == Some(Parsed(Copy(b0 + 0x100 * b1, len), 3))
    ensures ParseElement([3 + 4 * (len - 1), b0, b1, b2, b3] + rest) ==
            Some(Parsed(Copy(b0 + 0x100 * b1 + 0x1_0000 * b2 + 0x100_0000 * b3, len), 5))
  {
    hide ParseElement;
    if 4 <= len < 12 && b1 < 8 {
      NearTag(len, b1);
      NearCopy([1 + 4 * (len - 4) + 32 * b1, b0] + rest);
    }
    FarCopy([2 + 4 * (len - 1), b0, b1] + rest);
    FarthestCopy([3 + 4 * (len - 1), b0, b1, b2, b3] + rest);
  }

  lemma NearTag(len: nat, high: nat)
    requires 4 <= len < 12 && high < 8
    ensures var c := 1 + 4 * (len - 4) + 32 * high; c < 0x100 && c % 4 == 1 && c / 4 % 8 == len - 4 && c / 32 == high
  {}

  // Which bytes stand for a given literal; longer length fields than needed
  // are allowed.
  lemma ShortLiteralForm(data: bytes, rest: bytes)
    requires 1 <= |data| <= 60
    ensures ParseElement([4 * (|data| - 1)] + data + rest) == Some(Parsed(Literal(data), 1 + |data|))
  {
    hide ParseElement;
    ShortLiteral([4 * (|data| - 1)] + data + rest);
    DataBehind([4 * (|data| - 1)], data, rest);
  }

  lemma LongLiteralForms(data: bytes, b0: byte, b1: byte, b2: byte, b3: byte, rest: bytes)
    ensures |data| == b0 as int + 1 ==>
              ParseElement([240, b0] + data + rest) == Some(Parsed(Literal(data), 2 + |data|))
    ensures |data| == b0 + 0x100 * (b1 as int) + 1 ==>
              ParseElement([244, b0, b1] + data + rest) == Some(Parsed(Literal(data), 3 + |data|))
    ensures |data| == b0 + 0x100 * (b1 as int) + 0x1_0000 * (b2 as int) + 1 ==>
              ParseElement([248, b0, b1, b2] + data + rest) == Some(Parsed(Literal(data), 4 + |data|))
    ensures |data| == (b0 + 0x100 * (b1 as int) + 0x1_0000 * (b2 as int) + 0x100_0000 * (b3 as int) + 1)
                      % 0x1_0000_0000 ==>
              ParseElement([252, b0, b1, b2, b3] + data + rest) == Some(Parsed(Literal(data), 5 + |data|))
  {
    hide ParseElement, Load;
    LongLiteralForm([240, b0], data, rest, b0);
    LongLiteralForm([244, b0, b1], data, rest, b0 + 0x100 * (b1 as int));
    LongLiteralForm([248, b0, b1, b2], data, rest, b0 + 0x100 * (b1 as int) + 0x1_0000 * (b2 as int));
    LongLiteralForm([252, b0, b1, b2, b3], data, rest,
                    b0 + 0x100 * (b1 as int) + 0x1_0000 * (b2 as int) + 0x100_0000 * (b3 as int));
  }

  // n is the number in the length bytes of the header.
  ghost predicate HoldsNumber(header: bytes, n: nat) {
    && 2 <= |header| <= 5
    && (|header| == 2 ==> n == header[1])
    && (|header| == 3 ==> n == header[1] + 0x100 * (header[2] as int))
    && (|header| == 4 ==> n == header[1] + 0x100 * (header[2] as int) + 0x1_0000 * (header[3] as int))
    && (|header| == 5 ==>
          n == header[1] + 0x100 * (header[2] as int) + 0x1_0000 * (header[3] as int) + 0x100_0000 * (header[4] as int))
  }

  lemma LongLiteralForm(header: bytes, data: bytes, rest: bytes, n: nat)
    requires 2 <= |header| <= 5 && header[0] == 4 * (58 + |header|) && HoldsNumber(header, n)
    ensures |data| == (n + 1) % 0x1_0000_0000 ==>
              ParseElement(header + data + rest) == Some(Parsed(Literal(data), |header| + |data|))
  {
    hide ParseElement, Load;
    var s, extra := header + data + rest, |header| - 1;
    LoadBytes(header, 1, extra);
    hide HoldsNumber;
    LiteralBehind(s, extra);
    SameLengthBytes(header, data + rest);
    assert s == header + (data + rest);
    DataBehind(header, data, rest);
  }

  lemma SameLengthBytes(header: bytes, rest: bytes)
    requires header != []
    ensures Load(header + rest, 1, |header| - 1) == Load(header, 1, |header| - 1)
  {
    hide Load;
    SliceOfPrefix(header, rest, 1, |header|);
    LoadLocal(header + rest, 1, header, 1, |header| - 1);
  }

  lemma DataBehind(header: bytes, data: bytes, rest: bytes)
    ensures (header + data + rest)[|header|..|header| + |data|] == data
  {}
}
