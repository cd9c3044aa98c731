// The template argument of the decompressor: any of the three writers, each
// of which simulates the abstract LZ77 machine.

module Writers {
  import opened Machine
  import opened Lz77
  import opened ArrayWriters
  import opened IOVecWriters
  import opened Validators

  datatype Writer =
    | ToArray(a: SnappyArrayWriter)
    | ToIOVec(v: SnappyIOVecWriter)
    | ToNowhere(n: SnappyDecompressionValidator)
  {
    ghost function Repr(): set<object> {
      match this
      case ToArray(a) => {a, a.mem}
      case ToIOVec(v) => {v} + set i | 0 <= i < |v.iov| :: v.iov[i].mem as object
      case ToNowhere(n) => {n}
    }

    // Before the expected length is known: nothing written yet.
    ghost predicate Unused()
      reads Repr()
    {
      match this
      case ToArray(a) => a.Valid() && a.Output() == [] && a.before == a.mem[..]
      case ToIOVec(v) => v.Placed() && v.Output() == [] && v.before == Now(v.iov)
      case ToNowhere(n) => n.produced_ == 0 && n.output == []
    }

    // What the callers of the decompressor must see to before n bytes can be
    // announced: a flat array takes them all, of buffers there is at least one.
    ghost predicate HasRoom(n: nat)
      reads Repr()
    {
      match this
      case ToArray(a) => a.base_ + n <= a.mem.Length
      case ToIOVec(v) => n > 0 ==> v.iov != []
      case ToNowhere(_) => true
    }

    // All of n bytes have a place.
    ghost predicate Takes(n: nat) {
      ToIOVec? ==> n <= Capacity(v.iov)
    }

    ghost predicate Ready()
      reads Repr()
    {
      match this
      case ToArray(a) => a.Ready()
      case ToIOVec(v) => v.Ready()
      case ToNowhere(n) => n.Ready()
    }

    ghost function Output(): bytes
      requires Unused() || Ready()
      reads Repr()
    {
      match this
      case ToArray(a) => a.Output()
      case ToIOVec(v) => v.Output()
      case ToNowhere(n) => n.output
    }

    ghost function Limit(): (n: nat)
      requires Ready()
      reads Repr()
      ensures n < 0x1_0000_0000
    {
      match this
      case ToArray(a) => a.Limit()
      case ToIOVec(v) => v.Limit()
      case ToNowhere(n) => n.Limit()
    }

    // Nothing is lost: only buffers can together be too small.
    ghost predicate Fits()
      requires Ready()
      reads Repr()
    {
      ToIOVec? ==> v.Fits()
    }

    // The destination is untouched outside its first `limit` bytes.
    ghost predicate Kept(limit: nat)
      reads Repr()
    {
      match this
      case ToArray(a) => a.Kept(limit)
      case ToIOVec(v) => v.Kept(limit)
      case ToNowhere(_) => true
    }

    method SetExpectedLength(len: nat)
      requires Unused() && HasRoom(len) && len < 0x1_0000_0000
      modifies Repr()
      ensures Ready() && Limit() == len && Output() == [] && Kept(len)
      ensures Fits() <==> Takes(len)
    {
      match this
      case ToArray(a) => a.SetExpectedLength(len);
      case ToIOVec(v) => v.SetExpectedLength(len);
      case ToNowhere(n) => n.SetExpectedLength(len);
    }

    method CheckLength() returns (ok: bool)
      requires Ready()
      ensures ok <==> Fits() && |Output()| == Limit()
    {
      match this
      case ToArray(a) => ok := a.CheckLength();
      case ToIOVec(v) => ok := v.CheckLength();
      case ToNowhere(n) => ok := n.CheckLength();
    }

    method Append(data: bytes) returns (ok: bool)
      requires Ready()
      modifies Repr()
      ensures Kept(old(Limit()))
      ensures old(Fits()) ==> (ok <==> |old(Output())| + |data| <= old(Limit()))
      ensures ok ==> Ready() && Limit() == old(Limit()) && Fits() == old(Fits())
      ensures ok && old(Fits()) ==> Output() == old(Output()) + data
      ensures ok && old(Fits()) ==> Some(Output()) == Step(old(Output()), old(Limit()), Literal(data))
    {
      hide CopyBack;
      match this
      case ToArray(a) => ok := a.Append(data);
      case ToIOVec(v) => ok := v.Append(data);
      case ToNowhere(n) => ok := n.Append(data);
    }

    // Allowed to decline; if it accepts, it leaves five bytes of input.
    method TryFastAppend(input: bytes, len: nat) returns (ok: bool)
      requires Ready()
      modifies Repr()
      ensures Ready() && Limit() == old(Limit()) && Fits() == old(Fits()) && Kept(Limit())
      ensures ok ==> len <= 16 && len + kMaximumTagLength <= |input|
      ensures ok ==> Some(Output()) == Step(old(Output()), Limit(), Literal(input[..len]))
      ensures !ok ==> Output() == old(Output())
    {
      match this
      case ToArray(a) => ok := a.TryFastAppend(input, len);
      case ToIOVec(v) => ok := v.TryFastAppend(input, len);
      case ToNowhere(n) => ok := n.TryFastAppend(input, len);
    }

    method AppendFromSelf(offset: uint32, len: nat) returns (ok: bool)
      requires Ready() && len > 0
      modifies Repr()
      ensures Kept(old(Limit()))
      ensures old(Fits()) ==> (ok <==> 0 < offset <= |old(Output())| && |old(Output())| + len <= old(Limit()))
      ensures ok ==> Ready() && Limit() == old(Limit()) && Fits() == old(Fits())
      ensures ok && old(Fits()) ==> |Output()| == |old(Output())| + len && Output()[..|old(Output())|] == old(Output())
      ensures ok && old(Fits()) ==>
                forall i {:trigger Output()[i]} :: |old(Output())| <= i < |Output()| ==>
                  Output()[i] == Output()[i - offset]
      ensures ok && old(Fits()) ==> Some(Output()) == Step(old(Output()), old(Limit()), Copy(offset, len))
    {
      hide CopyBack;
      CopyIsRepetition(Output(), offset, len);
      match this
      case ToArray(a) => ok := a.AppendFromSelf(offset, len);
      case ToIOVec(v) => ok := v.AppendFromSelf(offset, len);
      case ToNowhere(n) => ok := n.AppendFromSelf(offset, len);
    }
  }

  // What a copy appends, if it is not refused.
  lemma CopyIsRepetition(out: bytes, offset: nat, len: nat)
    ensures 0 < offset <= |out| ==>
              && CopyBack(out, offset, len)[..|out|] == out
              && RepeatsAt(CopyBack(out, offset, len), offset, |out|)
  {
    if 0 < offset <= |out| {
      CopyBackRepeats(out, offset, len);
    }
  }
}
