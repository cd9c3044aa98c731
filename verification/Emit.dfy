// The emitters as they write into the output buffer.

module Emit {
  import opened Machine
  import opened Lz77
  import opened TagFormat
  import opened Memory

  // The 16-byte literal store and its tag byte.
  const kFastLiteral := 17

  // The long form: the length minus one in as many bytes as it needs, then
  // the tag that counts them.
  method EmitLengthBytes(dest: array<byte>, base: nat, len: nat) returns (op: nat)
    requires 60 < len <= 0x1_0000_0000 && base + |LiteralHeader(len)| <= dest.Length
    modifies dest
    ensures op == base + |LiteralHeader(len)|
    ensures dest[base..op] == LiteralHeader(len)
    ensures OnlyBetween(dest, base, op)
  {
    hide Digits, LiteralHeader;
    var n: nat := len - 1;
    LongHeaderIs(len);
    ghost var digits := Digits(n);
    op := base + 1;
    while n > 0
      invariant base + 1 <= op && op + |Digits(n)| == base + 1 + |digits|
      invariant dest[base + 1..op] + Digits(n) == digits
      invariant OnlyBetween(dest, base, op)
    {
      DigitsStep(n);
      ghost var done := dest[base + 1..op];
      dest[op] := n % 0x100;
      DigitMoved(done, n, digits);
      assert dest[base + 1..op + 1] == done + [n % 0x100];
      op := op + 1;
      n := n / 0x100;
    }
    DigitsEnd();
    var count := op - (base + 1);
    assert dest[base + 1..op] == digits;
    dest[base] := 4 * (59 + count);
    assert dest[base..op] == [4 * (59 + count)] + digits;
  }

  lemma LongHeaderIs(len: nat)
    requires 60 < len <= 0x1_0000_0000
    ensures 1 <= |Digits(len - 1)| <= 4 && LiteralHeader(len) == [4 * (59 + |Digits(len - 1)|)] + Digits(len - 1)
  {
    DigitsLength(len - 1);
  }

  lemma DigitMoved(done: bytes, n: nat, digits: bytes)
    requires n > 0 && done + Digits(n) == digits
    ensures done + [n % 0x100] + Digits(n / 0x100) == digits
  {}

  lemma DigitsStep(n: nat)
    requires n > 0
    ensures Digits(n) == [n % 0x100] + Digits(n / 0x100) && n / 0x100 < n
  {}

  lemma DigitsEnd()
    ensures Digits(0) == []
  {}

  // The 16-byte path: tag, then two 8-byte stores.
  method EmitFastLiteral(dest: array<byte>, start: nat, input: bytes, literal: nat, len: nat) returns (op: nat)
    requires 0 < len <= 16 && literal + 16 <= |input| && start + kFastLiteral <= dest.Length
    modifies dest
    ensures op == start + 1 + len
    ensures dest[start..op] == LiteralBytes(input[literal..literal + len])
    ensures OnlyBetween(dest, start, start + kFastLiteral)
  {
    dest[start] := 4 * (len - 1);
    op := start + 1;
    StoreSixteen(dest, op, input[literal..literal + 16], len);
    assert input[literal..literal + 16][..len] == input[literal..literal + len];
    op := op + len;
    assert dest[start..op] == [4 * (len - 1)] + input[literal..literal + len];
  }

  // Writes the tag, the length bytes and the literal.  The fast path copies
  // 16 bytes whatever the length, reading and writing past the literal.
  method EmitLiteral(dest: array<byte>, start: nat, input: bytes, literal: nat, len: nat, allowFastPath: bool)
    returns (op: nat)
    requires 0 < len <= 0x1_0000_0000 && literal + len <= |input|
    requires start + |LiteralHeader(len)| + len <= dest.Length
    requires allowFastPath ==> literal + 16 <= |input| && start + kFastLiteral <= dest.Length
    modifies dest
    ensures op == start + |LiteralHeader(len)| + len <= dest.Length
    ensures dest[start..op] == LiteralBytes(input[literal..literal + len])
    ensures OnlyBetween(dest, start, if allowFastPath && op < start + kFastLiteral then start + kFastLiteral else op)
  {
    hide LiteralHeader;
    ghost var data := input[literal..literal + len];
    if allowFastPath && len <= 16 {
      op := EmitFastLiteral(dest, start, input, literal, len);
      FastHeader(len);
      return;
    }
    op := EmitHeader(dest, start, len);
    ghost var header := dest[start..op];
    Memcpy(dest, op, input[literal..literal + len]);
    assert dest[start..op + len] == header + dest[op..op + len];
    op := op + len;
  }

  // The tag, and the length bytes of a long literal.
  method EmitHeader(dest: array<byte>, base: nat, len: nat) returns (op: nat)
    requires 0 < len <= 0x1_0000_0000 && base + |LiteralHeader(len)| <= dest.Length
    modifies dest
    ensures op == base + |LiteralHeader(len)|
    ensures dest[base..op] == LiteralHeader(len)
    ensures OnlyBetween(dest, base, op)
  {
    hide LiteralHeader;
    ShortHeader(len);
    var n: nat := len - 1;
    if n < 60 {
      dest[base] := 4 * n;
      op := base + 1;
      assert dest[base..op] == [4 * n];
    } else {
      op := EmitLengthBytes(dest, base, len);
    }
  }

  lemma FastHeader(len: nat)
    requires 0 < len <= 60
    ensures |LiteralHeader(len)| == 1
  {}

  lemma ShortHeader(len: nat)
    requires 0 < len <= 0x1_0000_0000
    ensures len <= 60 ==> LiteralHeader(len) == [4 * (len - 1)]
  {}

  method EmitCopyLessThan64(dest: array<byte>, start: nat, offset: nat, len: nat) returns (op: nat)
    requires 4 <= len <= 64 && offset < 0x1_0000
    requires start + |ShortCopyBytes(offset, len)| <= dest.Length
    modifies dest
    ensures op == start + |ShortCopyBytes(offset, len)|
    ensures dest[start..op] == ShortCopyBytes(offset, len)
    ensures OnlyBetween(dest, start, op)
  {
    op := start;
    if len < 12 && offset < 2048 {
      var lenMinus4 := len - 4;
      dest[op] := 1 + lenMinus4 * 4 + offset / 0x100 * 32;
      op := op + 1;
      dest[op] := offset % 0x100;
      op := op + 1;
    } else {
      dest[op] := 2 + (len - 1) * 4;
      op := op + 1;
      dest[op], dest[op + 1] := offset % 0x100, offset / 0x100;
      op := op + 2;
    }
  }

  lemma PiecesCons(offset: nat, lens: seq<nat>)
    requires offset < 0x1_0000 && lens != [] && forall i :: 0 <= i < |lens| ==> 4 <= lens[i] <= 64
    ensures PieceBytes(offset, lens) == ShortCopyBytes(offset, lens[0]) + PieceBytes(offset, lens[1..])
  {}

  // One unfolding of the pieces of a copy.
  lemma CopyBytesStep(offset: nat, len: nat)
    requires offset < 0x1_0000 && len >= 4
    ensures len >= 68 ==> CopyBytes(offset, len) == ShortCopyBytes(offset, 64) + CopyBytes(offset, len - 64)
    ensures 64 < len < 68 ==> CopyBytes(offset, len) == ShortCopyBytes(offset, 60) + ShortCopyBytes(offset, len - 60)
    ensures len <= 64 ==> CopyBytes(offset, len) == ShortCopyBytes(offset, len)
  {
    hide ShortCopyBytes;
    PiecesFit(len);
    var lens := Pieces(len);
    assert PieceBytes(offset, []) == [];
    if len >= 68 {
      PiecesFit(len - 64);
      assert lens[1..] == Pieces(len - 64);
    } else if len > 64 {
      assert lens == [60, len - 60] && lens[1..] == [len - 60] && lens[1..][1..] == [];
      PiecesCons(offset, lens[1..]);
    } else {
      assert lens == [len] && lens[1..] == [];
    }
  }

  method EmitCopy(dest: array<byte>, start: nat, offset: nat, length: nat) returns (op: nat)
    requires length >= 4 && offset < 0x1_0000
    requires start + |CopyBytes(offset, length)| <= dest.Length
    modifies dest
    ensures op == start + |CopyBytes(offset, length)|
    ensures dest[start..op] == CopyBytes(offset, length)
    ensures OnlyBetween(dest, start, op)
  {
    hide CopyBytes, ShortCopyBytes;
    ghost var whole := CopyBytes(offset, length);
    var len := length;
    op := start;
    while len >= 68
      invariant len >= 4 && start <= op && op + |CopyBytes(offset, len)| == start + |whole|
      invariant dest[start..op] + CopyBytes(offset, len) == whole
      invariant OnlyBetween(dest, start, op)
    {
      CopyBytesStep(offset, len);
      op := EmitPiece(dest, start, op, offset, 64, CopyBytes(offset, len - 64), whole);
      len := len - 64;
    }
    CopyBytesStep(offset, len);
    if len > 64 {
      op := EmitPiece(dest, start, op, offset, 60, ShortCopyBytes(offset, len - 60), whole);
      len := len - 60;
    }
    assert dest[start..op] + (ShortCopyBytes(offset, len) + []) == whole;
    op := EmitPiece(dest, start, op, offset, len, [], whole);
    assert dest[start..op] + [] == dest[start..op];
  }

  // One more piece of an element of which `rest` remains to be written.
  method EmitPiece(dest: array<byte>, ghost start: nat, at: nat, offset: nat, len: nat, ghost rest: bytes,
                   ghost whole: bytes)
    returns (op: nat)
    requires 4 <= len <= 64 && offset < 0x1_0000
    requires start <= at && start + |whole| <= dest.Length
    requires at + |ShortCopyBytes(offset, len)| + |rest| == start + |whole|
    requires dest[start..at] + (ShortCopyBytes(offset, len) + rest) == whole
    modifies dest
    ensures op == at + |ShortCopyBytes(offset, len)|
    ensures dest[start..op] + rest == whole
    ensures OnlyBetween(dest, at, op)
  {
    hide ShortCopyBytes;
    ghost var done := dest[start..at];
    op := EmitCopyLessThan64(dest, at, offset, len);
    assert dest[start..op] == done + ShortCopyBytes(offset, len);
  }
}
