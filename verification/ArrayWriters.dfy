// Decompressing into a flat array.

module ArrayWriters {
  import opened Machine
  import opened Lz77
  import opened Memory

  const kMaximumTagLength := 5

  // offset - 1u in 64-bit unsigned arithmetic: offset 0 becomes very large.
  function MinusOne(offset: nat): nat {
    (offset - 1) % 0x1_0000_0000_0000_0000
  }

  lemma OffsetCheck(produced: nat, offset: nat)
    requires produced < 0x1_0000_0000 && offset < 0x1_0000_0000
    ensures produced <= MinusOne(offset) <==> offset == 0 || produced < offset
  {}

  class SnappyArrayWriter {
    const mem: array<byte>
    const base_: nat
    var op_: nat
    var opLimit_: nat
    // The array before anything was written to it.
    ghost const before: bytes

    ghost predicate Valid()
      reads this
    {
      base_ <= op_ <= mem.Length
    }

    // Nothing outside the limit bytes from base_ has changed, ever.
    ghost predicate Kept(limit: int)
      reads this, mem
    {
      && opLimit_ == base_ + limit && |before| == mem.Length
      && forall i :: 0 <= i < mem.Length && !(base_ <= i < base_ + limit) ==> mem[i] == before[i]
    }

    // Once the expected length is known and the array has room for it.
    ghost predicate Ready()
      reads this, mem
    {
      Valid() && op_ <= opLimit_ <= mem.Length && Limit() < 0x1_0000_0000 && Kept(Limit())
    }

    ghost function Output(): bytes
      requires Valid()
      reads this, mem
    {
      mem[base_..op_]
    }

    ghost function Limit(): int
      reads this
    {
      opLimit_ - base_
    }

    constructor (mem: array<byte>, dst: nat)
      requires dst <= mem.Length
      ensures this.mem == mem && base_ == dst && Valid() && Output() == [] && before == mem[..]
    {
      this.mem, base_, op_, opLimit_, before := mem, dst, dst, dst, mem[..];
    }

    method SetExpectedLength(len: nat)
      requires Valid() && Output() == [] && before == mem[..] && base_ + len <= mem.Length && len < 0x1_0000_0000
      modifies this
      ensures Ready() && Limit() == len && Output() == [] && op_ == old(op_)
    {
      opLimit_ := op_ + len;
    }

    method CheckLength() returns (ok: bool)
      requires Ready()
      ensures ok <==> |Output()| == Limit()
    {
      ok := op_ == opLimit_;
    }

    method Append(data: bytes) returns (ok: bool)
      requires Ready()
      modifies this`op_, mem
      ensures Ready() && Limit() == old(Limit())
      ensures Some(Output()) == if ok then Step(old(Output()), Limit(), Literal(data)) else Some(old(Output()))
      ensures ok <==> |old(Output())| + |data| <= Limit()
      ensures OnlyBetween(mem, old(op_), opLimit_)
    {
      var op := op_;
      var spaceLeft := opLimit_ - op;
      if spaceLeft < |data| {
        return false;
      }
      ghost var before := Output();
      Memcpy(mem, op, data);
      op_ := op + |data|;
      assert mem[base_..op_] == before + data;
      ok := true;
    }

    // May write 16 bytes for a shorter literal, if that stays below the limit.
    method TryFastAppend(input: bytes, len: nat) returns (ok: bool)
      requires Ready()
      modifies this`op_, mem
      ensures Ready() && Limit() == old(Limit())
      ensures ok <==> len <= 16 && |input| >= 21 && Limit() - |old(Output())| >= 16
      ensures ok ==> Some(Output()) == Step(old(Output()), Limit(), Literal(input[..len]))
      ensures !ok ==> unchanged(this) && unchanged(mem)
      ensures OnlyBetween(mem, old(op_), opLimit_)
    {
      var op := op_;
      var spaceLeft := opLimit_ - op;
      if len <= 16 && |input| >= 16 + kMaximumTagLength && spaceLeft >= 16 {
        ghost var before := Output();
        StoreSixteen(mem, op, input, len);
        op_ := op + len;
        assert mem[base_..op_] == before + input[..len];
        return true;
      } else {
        return false;
      }
    }

    // Three ways to copy: two 8-byte stores, the pattern-expanding loop, or
    // byte by byte when there is no room to scribble.
    method AppendFromSelf(offset: uint32, len: nat) returns (ok: bool)
      requires Ready() && len > 0
      modifies this`op_, mem
      ensures Ready() && Limit() == old(Limit())
      ensures Some(Output()) == if ok then Step(old(Output()), Limit(), Copy(offset, len)) else Some(old(Output()))
      ensures ok <==> 0 < offset <= |old(Output())| && |old(Output())| + len <= Limit()
      ensures OnlyBetween(mem, old(op_), opLimit_)
    {
      hide CopyBack, MinusOne;
      var op := op_;
      var spaceLeft := opLimit_ - op;
      var produced := op - base_;
      OffsetCheck(produced, offset);
      if produced <= MinusOne(offset) {
        return false;
      }
      ghost var before := mem[..];
      assert before[..op] == mem[..op];
      if len <= 16 && offset >= 8 && spaceLeft >= 16 {
        CopySixteen(op, offset, len);
      } else {
        if spaceLeft >= len + kMaxIncrementCopyOverflow {
          IncrementalCopyFastPath(mem, op - offset, op, len);
        } else {
          if spaceLeft < len {
            return false;
          }
          IncrementalCopy(mem, op - offset, op, len);
        }
      }
      op_ := op + len;
      CopyBehind(before, mem[..], base_, op, offset, len);
      ok := true;
    }

    // The two stores are enough for up to 16 bytes at a distance of 8 or
    // more: the second one reads what the first one wrote.
    method CopySixteen(op: nat, offset: nat, len: nat)
      requires 8 <= offset <= op && len <= 16 && op + 16 <= mem.Length
      modifies mem
      ensures mem[..op + len] == CopyBack(old(mem[..op]), offset, len)
      ensures OnlyBetween(mem, op, op + 16)
    {
      UnalignedCopy64(mem, op - offset, op);
      UnalignedCopy64(mem, op - offset + 8, op + 8);
      RepeatedIsCopy(mem[..op + len], old(mem[..op]), offset, len);
    }
  }

  // A copy of a whole array whose window lies behind base is a copy of what
  // lies behind base.
  lemma CopyBehind(mem: bytes, mem': bytes, base: nat, op: nat, d: nat, n: nat)
    requires base <= op <= |mem| && op + n <= |mem'| && 0 < d <= op - base
    requires mem'[..op + n] == CopyBack(mem[..op], d, n)
    ensures mem'[base..op + n] == CopyBack(mem[base..op], d, n)
  {
    hide CopyBack;
    assert mem[..op] == mem[..base] + mem[base..op];
    CopyBackPrefix(mem[..base], mem[base..op], d, n);
    assert mem'[base..op + n] == (mem[..base] + CopyBack(mem[base..op], d, n))[base..];
  }
}
