// A writer that only counts.

module Validators {
  import opened Machine
  import opened Lz77
  import opened ArrayWriters

  class SnappyDecompressionValidator {
    var expected_: nat
    var produced_: nat
    // The output it would have produced.
    ghost var output: bytes

    ghost predicate Ready()
      reads this
    {
      produced_ == |output| <= expected_ < 0x1_0000_0000
    }

    ghost function Limit(): int
      reads this
    {
      expected_
    }

    constructor ()
      ensures produced_ == 0 && output == []
    {
      expected_, produced_, output := 0, 0, [];
    }

    method SetExpectedLength(len: nat)
      requires produced_ == 0 && output == [] && len < 0x1_0000_0000
      modifies this
      ensures Ready() && Limit() == len && output == []
    {
      expected_ := len;
    }

    method CheckLength() returns (ok: bool)
      requires Ready()
      ensures ok <==> |output| == Limit()
    {
      ok := expected_ == produced_;
    }

    // Counts first and compares afterwards: a refused append is counted too.
    method Append(data: bytes) returns (ok: bool)
      requires Ready()
      modifies this
      ensures Limit() == old(Limit())
      ensures ok <==> |old(output)| + |data| <= Limit()
      ensures ok ==> Ready() && Some(output) == Step(old(output), Limit(), Literal(data))
    {
      produced_ := produced_ + |data|;
      output := output + data;
      ok := produced_ <= expected_;
    }

    // Always declines.
    method TryFastAppend(input: bytes, len: nat) returns (ok: bool)
      ensures !ok
    {
      ok := false;
    }

    method AppendFromSelf(offset: uint32, len: nat) returns (ok: bool)
      requires Ready()
      modifies this
      ensures Limit() == old(Limit())
      ensures ok <==> 0 < offset <= |old(output)| && |old(output)| + len <= Limit()
      ensures ok ==> Ready() && Some(output) == Step(old(output), Limit(), Copy(offset, len))
    {
      hide CopyBack, MinusOne;
      OffsetCheck(produced_, offset);
      if produced_ <= MinusOne(offset) {
        return false;
      }
      produced_ := produced_ + len;
      output := CopyBack(output, offset, len);
      ok := produced_ <= expected_;
    }
  }
}
