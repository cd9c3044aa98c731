// The abstract LZ77 machine every writer must simulate and every compressed
// stream is a program for: section 2 of the Snappy compressed format
// description.

module Lz77 {
  import opened Machine

  type bytes = seq<byte>

  datatype Element = Literal(data: bytes) | Copy(offset: nat, len: nat)

  // Position i of a cycle of m bytes.
  function Wrap(i: nat, m: nat): (k: nat)
    requires m > 0
    ensures k < m
  {
    i % m
  }

  // A back-reference repeats the last `offset` bytes cyclically, which is
  // what a byte-by-byte copy does when source and destination overlap.
  function CopyBack(out: bytes, offset: nat, len: nat): (r: bytes)
    requires 0 < offset <= |out|
    ensures |r| == |out| + len
  {
    out + seq(len, i requires 0 <= i < len => out[|out| - offset + Wrap(i, offset)])
  }

  // One step of the machine; None is rejection.
  function Step(out: bytes, limit: nat, e: Element): Option<bytes> {
    match e
    case Literal(data) =>
      if |out| + |data| <= limit then Some(out + data) else None
    case Copy(offset, len) =>
      if 0 < offset <= |out| && |out| + len <= limit then Some(CopyBack(out, offset, len)) else None
  }

  // Which steps are refused, and what the others produce: a literal appends
  // its data; a copy appends len bytes, each of which equals the one offset
  // before it.  A copy of offset 0 or from before the output is refused.
  lemma StepMeans(out: bytes, limit: nat, data: bytes, offset: nat, len: nat)
    ensures Step(out, limit, Literal(data)).Some? <==> |out| + |data| <= limit
    ensures Step(out, limit, Literal(data)).Some? ==> Step(out, limit, Literal(data)).value == out + data
    ensures Step(out, limit, Copy(offset, len)).Some? <==> 0 < offset <= |out| && |out| + len <= limit
    ensures Step(out, limit, Copy(offset, len)).Some? ==>
              var r := Step(out, limit, Copy(offset, len)).value;
              && |r| == |out| + len && r[..|out|] == out
              && forall i {:trigger r[i]} :: |out| <= i < |r| ==> r[i] == r[i - offset]
  {
    if 0 < offset <= |out| {
      CopyBackRepeats(out, offset, len);
    }
  }

  function Run(els: seq<Element>, out: bytes, limit: nat): Option<bytes> {
    if els == [] then Some(out)
    else
      match Step(out, limit, els[0])
      case None => None
      case Some(next) => Run(els[1..], next, limit)
  }

  // ------------------------------------------------------------------
  // Copies
  // ------------------------------------------------------------------

  // The defining recurrence: each new byte equals the one `offset` before it.
  ghost predicate RepeatsAt(r: bytes, offset: nat, from: nat) {
    forall i {:trigger r[i]} :: from <= i < |r| ==> offset <= i && r[i] == r[i - offset]
  }

  lemma WrapStep(i: nat, m: nat)
    requires m > 0
    ensures Wrap(i, m) == if i < m then i else Wrap(i - m, m)
  {
    if i < m {
      SmallMod(i, m);
    } else {
      ModShift(i - m, 1, m);
    }
  }

  lemma CopyBackRepeats(out: bytes, offset: nat, len: nat)
    requires 0 < offset <= |out|
    ensures RepeatsAt(CopyBack(out, offset, len), offset, |out|)
  {
    hide Wrap;
    var r := CopyBack(out, offset, len);
    forall i {:trigger r[i]} | |out| <= i < |r|
      ensures offset <= i && r[i] == r[i - offset]
    {
      WrapStep(i - |out|, offset);
    }
  }

  // The recurrence has only one solution, so it characterises CopyBack.
  lemma {:induction false} RepeatsIsCopyBack(r: bytes, out: bytes, offset: nat, n: nat)
    requires 0 < offset <= |out| <= |r| && n <= |r| - |out|
    requires r[..|out|] == out && RepeatsAt(r, offset, |out|)
    ensures r[..|out| + n] == CopyBack(out, offset, n)
  {
    hide Wrap;
    if n > 0 {
      RepeatsIsCopyBack(r, out, offset, n - 1);
      var i := |out| + n - 1;
      var before := r[..i];
      WrapStep(n - 1, offset);
      assert r[i] == before[i - offset];
      assert before[i - offset] == out[|out| - offset + Wrap(n - 1, offset)];
      assert r[..i + 1] == before + [r[i]];
      CopyBackStep(out, offset, n);
    }
  }

  lemma CopyBackStep(out: bytes, offset: nat, n: nat)
    requires 0 < offset <= |out| && n > 0
    ensures CopyBack(out, offset, n) == CopyBack(out, offset, n - 1) + [out[|out| - offset + Wrap(n - 1, offset)]]
  {
    hide Wrap;
  }

  // Two consecutive copies from the same offset are one long copy.
  lemma CopyBackSplit(out: bytes, offset: nat, a: nat, b: nat)
    requires 0 < offset <= |out|
    ensures CopyBack(CopyBack(out, offset, a), offset, b) == CopyBack(out, offset, a + b)
  {
    var mid := CopyBack(out, offset, a);
    var r := CopyBack(mid, offset, b);
    CopyBackRepeats(out, offset, a);
    CopyBackRepeats(mid, offset, b);
    assert r[..|out|] == out;
    assert RepeatsAt(r, offset, |out|) by {
      forall i {:trigger r[i]} | |out| <= i < |r|
        ensures offset <= i && r[i] == r[i - offset]
      {
        if i < |mid| {
          assert r[i] == mid[i] && r[i - offset] == mid[i - offset];
        }
      }
    }
    RepeatsIsCopyBack(r, out, offset, a + b);
    assert r[..|out| + (a + b)] == r;
  }

  // A copy does not look at what precedes its window.
  lemma CopyBackPrefix(pre: bytes, out: bytes, offset: nat, len: nat)
    requires 0 < offset <= |out|
    ensures CopyBack(pre + out, offset, len) == pre + CopyBack(out, offset, len)
  {
    hide Wrap;
    var l, r := CopyBack(pre + out, offset, len), pre + CopyBack(out, offset, len);
    forall i | 0 <= i < |l|
      ensures l[i] == r[i]
    {
      if |pre| + |out| <= i {
        var k := Wrap(i - |pre| - |out|, offset);
        assert l[i] == (pre + out)[|pre| + |out| - offset + k];
        assert r[i] == out[|out| - offset + k];
      }
    }
  }

  // ------------------------------------------------------------------
  // Runs
  // ------------------------------------------------------------------

  lemma {:induction false} RunAppend(a: seq<Element>, b: seq<Element>, out: bytes, limit: nat)
    ensures Run(a + b, out, limit) ==
            match Run(a, out, limit) { case None => None case Some(mid) => Run(b, mid, limit) }
  {
    if a == [] {
      assert a + b == b;
    } else {
      assert (a + b)[0] == a[0] && (a + b)[1..] == a[1..] + b;
      match Step(out, limit, a[0]) {
        case None =>
        case Some(next) => RunAppend(a[1..], b, next, limit);
      }
    }
  }

  // The output only grows, and never past the limit.
  lemma {:induction false} RunGrows(els: seq<Element>, out: bytes, limit: nat)
    requires Run(els, out, limit).Some?
    ensures out <= Run(els, out, limit).value
    ensures |Run(els, out, limit).value| <= if |out| <= limit then limit else |out|
  {
    if els != [] {
      var next := Step(out, limit, els[0]).value;
      assert out <= next;
      RunGrows(els[1..], next, limit);
    }
  }

  // A program that runs from the empty output runs unchanged after any
  // prefix: none of its copies reaches before its own first byte.
  lemma {:induction false} RunAfterPrefix(pre: bytes, els: seq<Element>, out: bytes, limit: nat)
    requires Run(els, out, limit).Some?
    ensures Run(els, pre + out, |pre| + limit) == Some(pre + Run(els, out, limit).value)
  {
    if els != [] {
      var next := Step(out, limit, els[0]).value;
      match els[0] {
        case Literal(data) => assert pre + out + data == pre + (out + data);
        case Copy(offset, len) => CopyBackPrefix(pre, out, offset, len);
      }
      RunAfterPrefix(pre, els[1..], next, limit);
    }
  }

  // The limit only decides acceptance: a run that ends within a lower limit
  // also succeeds under it, and one that ends beyond it does not.
  lemma {:induction false} RunLimitDown(els: seq<Element>, out: bytes, limit: nat, limit': nat)
    requires Run(els, out, limit).Some? && limit' <= limit
    ensures |Run(els, out, limit).value| <= limit' ==> Run(els, out, limit') == Run(els, out, limit)
    ensures |out| <= limit' < |Run(els, out, limit).value| ==> Run(els, out, limit') == None
  {
    if els != [] {
      var next := Step(out, limit, els[0]).value;
      RunLimitDown(els[1..], next, limit, limit');
      RunGrows(els[1..], next, limit);
    }
  }
}
