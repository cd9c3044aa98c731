// The stream preamble (section 1 of the Snappy compressed format description):
// one encoder and the two readers the library has for it.

module Varint {
  import opened Machine
  import opened Lz77

  datatype Header = Header(value: uint32, size: nat)

  const kMax32 := 5

  // 1 << (7 * k)
  function Weight(k: nat): nat
    requires k < 5
  {
    if k == 0 then 1 else if k == 1 then 0x80 else if k == 2 then 0x4000
    else if k == 3 then 0x20_0000 else 0x1000_0000
  }

  // Varint::Encode32.  v | 0x80 truncated to a byte is the low seven bits of
  // v with the top bit set.
  function Encode32(v: uint32): (s: bytes)
    ensures 1 <= |s| <= kMax32
  {
    if v < 0x80 then [v]
    else if v < 0x4000 then [v % 0x80 + 0x80, v / 0x80]
    else if v < 0x20_0000 then [v % 0x80 + 0x80, v / 0x80 % 0x80 + 0x80, v / 0x4000]
    else if v < 0x1000_0000 then
      [v % 0x80 + 0x80, v / 0x80 % 0x80 + 0x80, v / 0x4000 % 0x80 + 0x80, v / 0x20_0000]
    else
      [v % 0x80 + 0x80, v / 0x80 % 0x80 + 0x80, v / 0x4000 % 0x80 + 0x80, v / 0x20_0000 % 0x80 + 0x80, v / 0x1000_0000]
  }

  // The streaming reader from byte k on: at most five bytes, and the fifth
  // loses whatever does not fit 32 bits.  Or-ing is adding here, because the
  // bits gathered so far all lie below the weight of the next byte.
  function StreamFrom(s: bytes, k: nat, result: nat): Option<Header>
    requires k <= 5 && result < if k < 5 then Weight(k) else 0x1_0000_0000
    decreases 5 - k
  {
    if k == 5 || k >= |s| then None
    else
      var sum := result + s[k] % 0x80 * Weight(k) % 0x1_0000_0000;
      if s[k] < 0x80 then Some(Header(sum, k + 1)) else StreamFrom(s, k + 1, sum)
  }

  function ReadStream(s: bytes): Option<Header> {
    StreamFrom(s, 0, 0)
  }

  // The flat reader from byte k on: the fifth byte must be below 16.
  function FlatFrom(s: bytes, k: nat, result: nat): Option<Header>
    requires k < 5 && result < Weight(k)
    decreases 5 - k
  {
    if k >= |s| then None
    else
      var sum := result + s[k] % 0x80 * Weight(k) % 0x1_0000_0000;
      if s[k] < (if k == 4 then 16 else 0x80) then Some(Header(sum, k + 1))
      else if k == 4 then None
      else FlatFrom(s, k + 1, sum)
  }

  function ReadFlat(s: bytes): Option<Header> {
    FlatFrom(s, 0, 0)
  }

  // Varint::Parse32WithLimit on the bytes in [ptr, limit).
  method Parse32WithLimit(s: bytes) returns (r: Option<Header>)
    ensures r == ReadFlat(s)
  {
    hide FlatFrom, Weight;
    Weights();
    FlatEnd(s, 0, 0);
    var ptr := 0;
    if ptr >= |s| { return None; }
    FlatStep(s, 0, 1, 0);
    var b: nat := s[ptr];
    ptr := ptr + 1;
    var result: nat := b % 0x80;
    if b < 0x80 { return Some(Header(result, ptr)); }
    FlatEnd(s, 1, result);
    if ptr >= |s| { return None; }
    FlatStep(s, 1, 0x80, result);
    b := s[ptr];
    ptr := ptr + 1;
    result := result + b % 0x80 * 0x80;
    if b < 0x80 { return Some(Header(result, ptr)); }
    FlatEnd(s, 2, result);
    if ptr >= |s| { return None; }
    FlatStep(s, 2, 0x4000, result);
    b := s[ptr];
    ptr := ptr + 1;
    result := result + b % 0x80 * 0x4000;
    if b < 0x80 { return Some(Header(result, ptr)); }
    FlatEnd(s, 3, result);
    if ptr >= |s| { return None; }
    FlatStep(s, 3, 0x20_0000, result);
    b := s[ptr];
    ptr := ptr + 1;
    result := result + b % 0x80 * 0x20_0000;
    if b < 0x80 { return Some(Header(result, ptr)); }
    FlatEnd(s, 4, result);
    if ptr >= |s| { return None; }
    FlatLast(s, result);
    b := s[ptr];
    ptr := ptr + 1;
    result := result + b % 0x80 * 0x1000_0000 % 0x1_0000_0000;
    if b < 16 { return Some(Header(result, ptr)); }
    return None;
  }

  lemma FlatEnd(s: bytes, k: nat, result: nat)
    requires k < 5 && result < Weight(k)
    ensures k >= |s| ==> FlatFrom(s, k, result) == None
  {}

  lemma FlatStep(s: bytes, k: nat, w: nat, result: nat)
    requires k < 4 && k < |s| && w == Weight(k) && result < w
    ensures Weight(k + 1) == 0x80 * w && result + s[k] % 0x80 * w < Weight(k + 1)
    ensures FlatFrom(s, k, result) ==
            var sum := result + s[k] % 0x80 * w;
            if s[k] < 0x80 then Some(Header(sum, k + 1)) else FlatFrom(s, k + 1, sum)
  {}

  lemma FlatLast(s: bytes, result: nat)
    requires 4 < |s| && result < Weight(4)
    ensures FlatFrom(s, 4, result) ==
            var c: nat := s[4];
            var sum := result + c % 0x80 * 0x1000_0000 % 0x1_0000_0000;
            if s[4] < 16 then Some(Header(sum, 5)) else None
  {}

  lemma Weights()
    ensures Weight(0) == 1 && Weight(1) == 0x80 && Weight(2) == 0x4000 && Weight(3) == 0x20_0000 &&
            Weight(4) == 0x1000_0000
  {}

  // Both readers invert the encoder, and stop exactly where it stopped.
  lemma EncodeRoundTrip(v: uint32, rest: bytes)
    ensures ReadFlat(Encode32(v) + rest) == Some(Header(v, |Encode32(v)|))
    ensures ReadStream(Encode32(v) + rest) == Some(Header(v, |Encode32(v)|))
  {
    FlatEncodeFrom(v, Encode32(v) + rest, 0);
    ReadersAgree(Encode32(v) + rest);
  }

  // One byte of the encoding: the low 7 * k bits of v are already read.
  lemma {:induction false} FlatEncodeFrom(v: uint32, s: bytes, k: nat)
    requires k < |Encode32(v)| && Encode32(v) <= s
    ensures FlatFrom(s, k, v % Weight(k)) == Some(Header(v, |Encode32(v)|))
    decreases 5 - k
  {
    var e := Encode32(v);
    assert s[k] == e[k];
    var sum := v % Weight(k) + s[k] % 0x80 * Weight(k) % 0x1_0000_0000;
    if k + 1 < |e| {
      NextDigit(v, k);
      FlatEncodeFrom(v, s, k + 1);
    } else {
      LastDigit(v, k);
    }
  }

  lemma NextDigit(v: uint32, k: nat)
    requires k + 1 < |Encode32(v)|
    ensures k < 4 && Encode32(v)[k] == v / Weight(k) % 0x80 + 0x80
    ensures v % Weight(k) + Encode32(v)[k] % 0x80 * Weight(k) % 0x1_0000_0000 == v % Weight(k + 1)
  {
    EncodedDigit(v, k);
    hide Encode32;
    var d := v / Weight(k) % 0x80;
    DigitFits(d, k);
    hide Weight;
    DigitSplit(v, Weight(k));
  }

  lemma DigitFits(d: nat, k: nat)
    requires k < 4 && d < 0x80
    ensures (d + 0x80) % 0x80 == d && d * Weight(k) % 0x1_0000_0000 == d * Weight(k)
    ensures Weight(k + 1) == 0x80 * Weight(k)
  {}

  lemma EncodedDigit(v: uint32, k: nat)
    requires k + 1 < |Encode32(v)|
    ensures k < 4 && Encode32(v)[k] == v / Weight(k) % 0x80 + 0x80
  {}

  lemma DigitSplit(v: nat, w: nat)
    requires w > 0
    ensures v % w + v / w % 0x80 * w == v % (0x80 * w)
  {
    var q, d := v / w / 0x80, v / w % 0x80;
    DivMod(v, w);
    assert v / w * w == (0x80 * q + d) * w == q * (0x80 * w) + d * w;
    MulMonotone(d, 0x7f, w);
    ModUnique(v, 0x80 * w, q, d * w + v % w);
  }

  lemma LastDigit(v: uint32, k: nat)
    requires k + 1 == |Encode32(v)|
    ensures Encode32(v)[k] < if k == 4 then 16 else 0x80
    ensures v % Weight(k) + Encode32(v)[k] % 0x80 * Weight(k) % 0x1_0000_0000 == v
  {
    LastEncoded(v, k);
    hide Encode32, Weight;
    var w: nat := Weight(k);
    var d: nat := v / w;
    DivMod(v, w);
    SmallMod(d, 0x80);
    SmallMod(d * w, 0x1_0000_0000);
  }

  lemma LastEncoded(v: uint32, k: nat)
    requires k + 1 == |Encode32(v)|
    ensures Weight(k) > 0 && Encode32(v)[k] == v / Weight(k) < if k == 4 then 16 else 0x80
  {}

  // Five bytes long with a fifth byte in 16..127: the only headers on which
  // the readers differ.
  predicate Overlong(s: bytes) {
    |s| >= 5 && s[0] >= 0x80 && s[1] >= 0x80 && s[2] >= 0x80 && s[3] >= 0x80 && 16 <= s[4] < 0x80
  }

  lemma {:induction false} ReadersAgreeFrom(s: bytes, k: nat, result: nat)
    requires k < 5 && result < Weight(k)
    requires forall i :: 0 <= i < k && i < |s| ==> s[i] >= 0x80
    ensures !Overlong(s) ==> FlatFrom(s, k, result) == StreamFrom(s, k, result)
    ensures Overlong(s) ==>
              && FlatFrom(s, k, result).None?
              && StreamFrom(s, k, result).Some? && StreamFrom(s, k, result).value.size == 5
    decreases 5 - k
  {
    if k < |s| && k < 4 && s[k] >= 0x80 {
      ReadersAgreeFrom(s, k + 1, result + s[k] % 0x80 * Weight(k) % 0x1_0000_0000);
    }
  }

  // The readers agree on value and size except on overlong headers, which
  // the flat one refuses and the streaming one accepts.
  lemma ReadersAgree(s: bytes)
    ensures ReadFlat(s) == ReadStream(s) <==> !Overlong(s)
    ensures ReadFlat(s).Some? ==> ReadStream(s) == ReadFlat(s)
    ensures Overlong(s) ==> ReadFlat(s).None? && ReadStream(s).Some?
  {
    ReadersAgreeFrom(s, 0, 0);
  }

  lemma StreamUnfolds(s: bytes, k: nat, result: nat)
    requires k <= 5 && result < if k < 5 then Weight(k) else 0x1_0000_0000
    ensures k == 0 && result == 0 ==> ReadStream(s) == StreamFrom(s, k, result)
    ensures k == 5 || k >= |s| ==> StreamFrom(s, k, result) == None
    ensures k < 5 && k < |s| ==>
              var sum := result + s[k] % 0x80 * Weight(k) % 0x1_0000_0000;
              && sum < (if k < 4 then Weight(k + 1) else 0x1_0000_0000)
              && StreamFrom(s, k, result) == if s[k] < 0x80 then Some(Header(sum, k + 1)) else StreamFrom(s, k + 1, sum)
  {}

  // The streaming reader byte by byte: seven bits from each byte, the lowest
  // first, up to the first byte below 0x80, which must be among the first
  // five; the fifth byte's contribution is reduced modulo 2^32.
  lemma StreamHeader(s: bytes, b0: nat, b1: nat, b2: nat, b3: nat)
    requires b0 < 0x80 && b1 < 0x80 && b2 < 0x80 && b3 < 0x80
    requires |s| >= 1 ==> b0 == s[0] % 0x80
    requires |s| >= 2 ==> b1 == s[1] % 0x80
    requires |s| >= 3 ==> b2 == s[2] % 0x80
    requires |s| >= 4 ==> b3 == s[3] % 0x80
    ensures |s| >= 1 && s[0] < 0x80 ==> ReadStream(s) == Some(Header(s[0], 1))
    ensures |s| >= 2 && s[0] >= 0x80 && s[1] < 0x80 ==> ReadStream(s) == Some(Header(b0 + 0x80 * b1, 2))
    ensures |s| >= 3 && s[0] >= 0x80 && s[1] >= 0x80 && s[2] < 0x80 ==>
              ReadStream(s) == Some(Header(b0 + 0x80 * b1 + 0x4000 * b2, 3))
    ensures |s| >= 4 && s[0] >= 0x80 && s[1] >= 0x80 && s[2] >= 0x80 && s[3] < 0x80 ==>
              ReadStream(s) == Some(Header(b0 + 0x80 * b1 + 0x4000 * b2 + 0x20_0000 * b3, 4))
    ensures |s| >= 5 && s[0] >= 0x80 && s[1] >= 0x80 && s[2] >= 0x80 && s[3] >= 0x80 && s[4] < 0x80 ==>
              ReadStream(s) == Some(Header(b0 + 0x80 * b1 + 0x4000 * b2 + 0x20_0000 * b3 +
                                           0x1000_0000 * (s[4] as int) % 0x1_0000_0000, 5))
  {
    hide StreamFrom, Weight;
    FirstThree(s, b0, b1, b2);
    if |s| >= 4 && s[0] >= 0x80 && s[1] >= 0x80 && s[2] >= 0x80 {
      StreamStep(s, 3, b0 + 0x80 * b1 + 0x4000 * b2, 0x20_0000, b3);
      if |s| >= 5 && s[3] >= 0x80 {
        StreamLast(s, b0 + 0x80 * b1 + 0x4000 * b2 + 0x20_0000 * b3);
      }
    }
  }

  lemma FirstThree(s: bytes, b0: nat, b1: nat, b2: nat)
    requires b0 < 0x80 && b1 < 0x80 && b2 < 0x80
    requires |s| >= 1 ==> b0 == s[0] % 0x80
    requires |s| >= 2 ==> b1 == s[1] % 0x80
    requires |s| >= 3 ==> b2 == s[2] % 0x80
    ensures |s| >= 1 && s[0] < 0x80 ==> ReadStream(s) == Some(Header(s[0], 1))
    ensures |s| >= 2 && s[0] >= 0x80 && s[1] < 0x80 ==> ReadStream(s) == Some(Header(b0 + 0x80 * b1, 2))
    ensures |s| >= 3 && s[0] >= 0x80 && s[1] >= 0x80 && s[2] < 0x80 ==>
              ReadStream(s) == Some(Header(b0 + 0x80 * b1 + 0x4000 * b2, 3))
    ensures |s| >= 3 && s[0] >= 0x80 && s[1] >= 0x80 && s[2] >= 0x80 ==>
              && 0 <= b0 + 0x80 * b1 + 0x4000 * b2 < 0x20_0000 == Weight(3)
              && ReadStream(s) == StreamFrom(s, 3, b0 + 0x80 * b1 + 0x4000 * b2)
    ensures Weight(4) == 0x1000_0000
  {
    Weights();
    assert ReadStream(s) == StreamFrom(s, 0, 0);
    hide StreamFrom, Weight;
    if |s| >= 1 {
      StreamStep(s, 0, 0, 1, b0);
      if |s| >= 2 && s[0] >= 0x80 {
        StreamStep(s, 1, b0, 0x80, b1);
        if |s| >= 3 && s[1] >= 0x80 {
          StreamStep(s, 2, b0 + 0x80 * b1, 0x4000, b2);
        }
      }
    }
  }

  lemma {:induction false} NoHeaderFrom(s: bytes, k: nat, result: nat)
    requires k <= 5 && result < if k < 5 then Weight(k) else 0x1_0000_0000
    requires forall i :: 0 <= i < |s| && i < 5 ==> s[i] >= 0x80
    ensures StreamFrom(s, k, result) == None
    decreases 5 - k
  {
    hide StreamFrom;
    StreamUnfolds(s, k, result);
    if k < 5 && k < |s| {
      NoHeaderFrom(s, k + 1, result + s[k] % 0x80 * Weight(k) % 0x1_0000_0000);
    }
  }

  // Without a byte below 0x80 among the first five there is no header.
  lemma NoHeader(s: bytes)
    requires forall i :: 0 <= i < |s| && i < 5 ==> s[i] >= 0x80
    ensures ReadStream(s) == None
  {
    NoHeaderFrom(s, 0, 0);
  }

  lemma StreamStep(s: bytes, k: nat, result: nat, w: nat, b: nat)
    requires k < 4 && k < |s| && w == Weight(k) && result < w && b == s[k] % 0x80
    ensures Weight(k + 1) == 0x80 * w && result + w * b < Weight(k + 1)
    ensures s[k] < 0x80 ==> b == s[k]
    ensures StreamFrom(s, k, result) ==
            if s[k] < 0x80 then Some(Header(result + w * b, k + 1)) else StreamFrom(s, k + 1, result + w * b)
  {}

  lemma StreamLast(s: bytes, result: nat)
    requires 5 <= |s| && result < Weight(4)
    ensures StreamFrom(s, 4, result) ==
            if s[4] < 0x80 then Some(Header(result + 0x1000_0000 * (s[4] as int) % 0x1_0000_0000, 5)) else None
  {}

  // The encoding is as short as seven bits a byte allow.
  lemma EncodedLength(v: uint32)
    ensures |Encode32(v)| == if v < 0x80 then 1 else if v < 0x4000 then 2 else if v < 0x20_0000 then 3
                             else if v < 0x1000_0000 then 4 else 5
  {}

  // An accepted header lies within the stream.
  lemma {:induction false} StreamFromSize(s: bytes, k: nat, result: nat)
    requires k <= 5 && result < if k < 5 then Weight(k) else 0x1_0000_0000
    requires StreamFrom(s, k, result).Some?
    ensures k < StreamFrom(s, k, result).value.size <= |s|
    decreases 5 - k
  {
    hide StreamFrom;
    StreamUnfolds(s, k, result);
    if s[k] >= 0x80 {
      StreamFromSize(s, k + 1, result + s[k] % 0x80 * Weight(k) % 0x1_0000_0000);
    }
  }
}
