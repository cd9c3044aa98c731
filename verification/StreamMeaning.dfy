// What a compressed stream means, without executing it: which streams are
// accepted, and which output an accepted one stands for.

module StreamMeaning {
  import opened Machine
  import opened Lz77
  import opened TagFormat
  import opened Varint
  import opened ElementForms
  import opened Stream

  function ElementLength(e: Element): nat {
    match e
    case Literal(data) => |data|
    case Copy(_, len) => len
  }

  // How many bytes the elements produce.
  function Produced(els: seq<Element>): nat {
    if els == [] then 0 else ElementLength(els[0]) + Produced(els[1..])
  }

  // The copy reaches back by at least one byte, and not before the output,
  // of which the n bytes before it are there.
  predicate Reaches(e: Element, n: nat) {
    e.Copy? ==> 0 < e.offset <= n
  }

  predicate AllReach(els: seq<Element>, n: nat) {
    forall i :: 0 <= i < |els| ==> Reaches(els[i], n + Produced(els[..i]))
  }

  // From position n on, out is what the element says: a literal's data, or
  // for a copy the bytes that lie `offset` before.
  ghost predicate Explains(e: Element, out: bytes, n: nat) {
    && n + ElementLength(e) <= |out|
    && match e
       case Literal(data) => out[n..n + |data|] == data
       case Copy(offset, len) =>
         0 < offset <= n && forall i {:trigger out[i]} :: n <= i < n + len ==> out[i] == out[i - offset]
  }

  ghost predicate AllExplain(els: seq<Element>, out: bytes, n: nat) {
    forall i :: 0 <= i < |els| ==> Explains(els[i], out, n + Produced(els[..i]))
  }

  // ------------------------------------------------------------------
  // Both predicates element by element
  // ------------------------------------------------------------------

  lemma ProducedPrefix(els: seq<Element>, i: nat)
    requires i + 1 < |els|
    ensures Produced(els[..i + 1]) == ElementLength(els[0]) + Produced(els[1..][..i]) && els[1..][i] == els[i + 1]
  {
    hide ElementLength;
    assert els[..i + 1][0] == els[0] && els[..i + 1][1..] == els[1..][..i];
  }

  lemma NothingProduced(els: seq<Element>)
    ensures Produced(els[..0]) == 0
  {}

  lemma AllReachStep(els: seq<Element>, n: nat)
    requires els != []
    ensures AllReach(els, n) <==>
            Reaches(els[0], n) && AllReach(els[1..], n + ElementLength(els[0]))
  {
    hide Reaches, ElementLength, Produced;
    var rest, m := els[1..], n + ElementLength(els[0]);
    NothingProduced(els);
    if AllReach(els, n) {
      forall i | 0 <= i < |rest|
        ensures Reaches(rest[i], m + Produced(rest[..i]))
      {
        ProducedPrefix(els, i);
        assert Reaches(els[i + 1], n + Produced(els[..i + 1]));
      }
      assert Reaches(els[0], n + Produced(els[..0]));
    }
    if Reaches(els[0], n) && AllReach(rest, m) {
      forall i | 0 <= i < |els|
        ensures Reaches(els[i], n + Produced(els[..i]))
      {
        if i > 0 {
          ProducedPrefix(els, i - 1);
          assert Reaches(rest[i - 1], m + Produced(rest[..i - 1]));
        }
      }
    }
  }

  lemma AllExplainStep(els: seq<Element>, out: bytes, n: nat)
    requires els != []
    ensures AllExplain(els, out, n) <==>
            Explains(els[0], out, n) && AllExplain(els[1..], out, n + ElementLength(els[0]))
  {
    hide Explains, ElementLength, Produced;
    var rest, m := els[1..], n + ElementLength(els[0]);
    NothingProduced(els);
    if AllExplain(els, out, n) {
      forall i | 0 <= i < |rest|
        ensures Explains(rest[i], out, m + Produced(rest[..i]))
      {
        ProducedPrefix(els, i);
        assert Explains(els[i + 1], out, n + Produced(els[..i + 1]));
      }
      assert Explains(els[0], out, n + Produced(els[..0]));
    }
    if Explains(els[0], out, n) && AllExplain(rest, out, m) {
      forall i | 0 <= i < |els|
        ensures Explains(els[i], out, n + Produced(els[..i]))
      {
        if i > 0 {
          ProducedPrefix(els, i - 1);
          assert Explains(rest[i - 1], out, m + Produced(rest[..i - 1]));
        }
      }
    }
  }

  // ------------------------------------------------------------------
  // Running
  // ------------------------------------------------------------------

  lemma StepLength(out: bytes, limit: nat, e: Element)
    ensures Step(out, limit, e).Some? <==> Reaches(e, |out|) && |out| + ElementLength(e) <= limit
    ensures Step(out, limit, e).Some? ==> |Step(out, limit, e).value| == |out| + ElementLength(e)
  {
    hide CopyBack;
  }

  // A run succeeds exactly when every copy reaches into the output before it
  // and all of the output fits.
  lemma {:induction false} RunAccepts(els: seq<Element>, out: bytes, limit: nat)
    requires |out| <= limit
    ensures Run(els, out, limit).Some? <==> AllReach(els, |out|) && |out| + Produced(els) <= limit
    ensures Run(els, out, limit).Some? ==> |Run(els, out, limit).value| == |out| + Produced(els)
  {
    hide Step, AllReach, Reaches, ElementLength;
    if els == [] {
      NothingReaches(|out|);
    } else {
      AllReachStep(els, |out|);
      StepLength(out, limit, els[0]);
      match Step(out, limit, els[0]) {
        case None =>
        case Some(next) => RunAccepts(els[1..], next, limit);
      }
    }
  }

  lemma NothingReaches(n: nat)
    ensures AllReach([], n)
  {}

  lemma StepExplains(out: bytes, limit: nat, e: Element, all: bytes)
    requires Step(out, limit, e).Some? && out <= all
    ensures Step(out, limit, e).value <= all <==> Explains(e, all, |out|)
  {
    match e {
      case Literal(data) => LiteralExplains(out, data, all);
      case Copy(offset, len) => CopyExplains(out, offset, len, all);
    }
  }

  lemma LiteralExplains(out: bytes, data: bytes, all: bytes)
    requires out <= all
    ensures out + data <= all <==> |out| + |data| <= |all| && all[|out|..|out| + |data|] == data
  {
    if |out| + |data| <= |all| {
      assert all[..|out| + |data|] == out + all[|out|..|out| + |data|];
    }
  }

  lemma CopyExplains(out: bytes, offset: nat, len: nat, all: bytes)
    requires 0 < offset <= |out| && out <= all
    ensures CopyBack(out, offset, len) <= all <==> Explains(Copy(offset, len), all, |out|)
  {
    hide CopyBack;
    var next := CopyBack(out, offset, len);
    CopyBackRepeats(out, offset, len);
    if |next| <= |all| {
      var r := all[..|next|];
      assert r[..|out|] == out;
      if next <= all {
        assert r == next;
        assert RepeatsAt(r, offset, |out|);
        forall i {:trigger all[i]} | |out| <= i < |next|
          ensures all[i] == all[i - offset]
        {
          assert r[i] == r[i - offset];
        }
      }
      if Explains(Copy(offset, len), all, |out|) {
        assert RepeatsAt(r, offset, |out|);
        RepeatsIsCopyBack(r, out, offset, len);
        assert r[..|out| + len] == r;
      }
    }
  }

  // The result of a run is the one output that every element explains.
  lemma {:induction false} RunMeans(els: seq<Element>, out: bytes, limit: nat, all: bytes)
    requires |out| <= limit
    ensures Run(els, out, limit) == Some(all) <==>
            out <= all && |all| == |out| + Produced(els) <= limit && AllExplain(els, all, |out|)
  {
    hide Step, AllExplain, Explains, Reaches, ElementLength;
    if els == [] {
      NothingExplains(els, all, |out|);
      if out <= all && |all| == |out| {
        assert all == all[..|out|] == out;
      }
    } else {
      AllExplainStep(els, all, |out|);
      StepLength(out, limit, els[0]);
      if Explains(els[0], all, |out|) { ExplainsReaches(els[0], all, |out|); }
      match Step(out, limit, els[0]) {
        case None =>
        case Some(next) =>
          RunMeans(els[1..], next, limit, all);
          StepGrows(out, limit, els[0]);
          if out <= all {
            StepExplains(out, limit, els[0], all);
          }
      }
    }
  }

  lemma NothingExplains(els: seq<Element>, all: bytes, n: nat)
    requires els == []
    ensures AllExplain(els, all, n)
  {}

  lemma ExplainsReaches(e: Element, all: bytes, n: nat)
    requires Explains(e, all, n)
    ensures Reaches(e, n) && n + ElementLength(e) <= |all|
  {}

  lemma StepGrows(out: bytes, limit: nat, e: Element)
    requires Step(out, limit, e).Some?
    ensures out <= Step(out, limit, e).value
  {}

  // ------------------------------------------------------------------
  // Streams
  // ------------------------------------------------------------------

  // The elements behind the preamble, if there is one and they are complete.
  function Elements(s: bytes): (els: Option<seq<Element>>)
    ensures els.Some? ==> ReadStream(s).Some?
  {
    match ReadStream(s)
    case None => None
    case Some(h) =>
      StreamFromSize(s, 0, 0);
      ParseAll(s[h.size..])
  }

  // No bytes are no elements; one more element is one more; and bytes that
  // are not a complete element make all of them incomplete.
  lemma OneMoreElement(s: bytes, t: bytes)
    requires t != []
    ensures ParseAll([]) == Some([])
    ensures ParseAll(s).Some? && ParseElement(t).Some? && ParseElement(t).value.size == |t| ==>
              ParseAll(s + t) == Some(ParseAll(s).value + [ParseElement(t).value.element])
    ensures ParseAll(s).Some? && ParseElement(t) == None ==> ParseAll(s + t) == None
  {
    hide ParseElement;
    if ParseAll(s).Some? {
      ParseAppend(s, t);
      if ParseElement(t).Some? && ParseElement(t).value.size == |t| {
        ParseOne(t, ParseElement(t).value.element);
      }
    }
  }

  lemma DecodeRuns(s: bytes)
    ensures Decode(s) ==
            if Elements(s) == None then None
            else
              match Run(Elements(s).value, [], ReadStream(s).value.value)
              case None => None
              case Some(out) => if |out| == ReadStream(s).value.value then Some(out) else None
  {
    hide ReadStream, StreamFrom, ParseAll, Run, DecodeTags;
    if ReadStream(s).Some? {
      HeaderWithin(s);
      var h := ReadStream(s).value;
      DecodeIsParseThenRun(s[h.size..], [], h.value);
    }
  }

  lemma HeaderWithin(s: bytes)
    requires ReadStream(s).Some?
    ensures ReadStream(s).value.size <= |s|
  {
    StreamFromSize(s, 0, 0);
  }

  // A stream is accepted exactly when its elements are complete, produce the
  // announced number of bytes, and no copy among them has offset 0 or reaches
  // before the output.
  lemma DecodeAccepts(s: bytes)
    ensures Decode(s).Some? <==>
            && Elements(s).Some?
            && Produced(Elements(s).value) == ReadStream(s).value.value
            && forall i :: 0 <= i < |Elements(s).value| ==>
                 var e := Elements(s).value[i];
                 e.Copy? ==> 0 < e.offset <= Produced(Elements(s).value[..i])
  {
    hide Decode, Elements, ReadStream, Produced, Run;
    DecodeRuns(s);
    if Elements(s).Some? {
      RunAccepts(Elements(s).value, [], ReadStream(s).value.value);
    }
  }

  // Its output is the one sequence of the announced length in which every
  // literal stands where it belongs and every copied byte equals the one its
  // offset points back to.
  lemma DecodeMeans(s: bytes, out: bytes)
    ensures Decode(s) == Some(out) <==>
            && Elements(s).Some?
            && |out| == Produced(Elements(s).value) == ReadStream(s).value.value
            && AllExplain(Elements(s).value, out, 0)
  {
    hide Decode, Elements, ReadStream, Produced, Run, AllExplain;
    DecodeRuns(s);
    if Elements(s).Some? {
      RunMeans(Elements(s).value, [], ReadStream(s).value.value, out);
    }
  }

  // ------------------------------------------------------------------
  // Streams from the library's own tests
  // ------------------------------------------------------------------

  // A short literal followed by one copy.
  lemma LiteralThenCopy(n: byte, out: bytes, copy: bytes, e: Element)
    requires n < 0x80 && 1 <= |out| <= 60 && |out| <= n
    requires copy != [] && ParseElement(copy) == Some(Parsed(e, |copy|))
    ensures Decode([n, 4 * (|out| - 1)] + out + copy) ==
            match Step(out, n, e)
            case None => None
            case Some(all) => if |all| == n then Some(all) else None
  {
    hide ParseElement, Step;
    var body := [4 * (|out| - 1)] + out + copy;
    var s := [n, 4 * (|out| - 1)] + out + copy;
    assert s[1..] == body;
    assert ReadStream(s) == Some(Header(n, 1));
    ShortLiteralForm(out, copy);
    assert body[1 + |out|..] == copy;
    OnlyElement(out, n, copy, e);
    FirstLiteral(out, n);
    assert DecodeTags(body, [], n) == DecodeTags(copy, out, n);
  }

  lemma FirstLiteral(out: bytes, limit: nat)
    requires |out| <= limit
    ensures Step([], limit, Literal(out)) == Some(out)
  {
    assert [] + out == out;
  }

  lemma OnlyElement(out: bytes, limit: nat, s: bytes, e: Element)
    requires s != [] && ParseElement(s) == Some(Parsed(e, |s|))
    ensures DecodeTags(s, out, limit) == Step(out, limit, e)
  {
    hide ParseElement, Step;
    assert s[|s|..] == [];
    match Step(out, limit, e) {
      case None =>
      case Some(next) => assert DecodeTags([], next, limit) == Some(next);
    }
  }

  // A copy of offset 0, right at the start or after some output.
  lemma ZeroOffsetCopies()
    ensures Decode([0x40, 0x12, 0, 0]) == None && Decode([5, 0x12, 0, 0]) == None
    ensures Decode([4, 0x0C, 97, 98, 99, 100, 0x0E, 0, 0]) == None
  {
    hide Decode;
    NoCopyAtStart([0x40, 0x12, 0, 0]);
    NoCopyAtStart([5, 0x12, 0, 0]);
    NoCopyAfterLiteral();
  }

  lemma NoCopyAfterLiteral()
    ensures Decode([4, 0x0C, 97, 98, 99, 100, 0x0E, 0, 0]) == None
  {
    hide ParseElement, Decode;
    FarCopy([0x0E, 0, 0]);
    LiteralThenCopy(4, [97, 98, 99, 100], [0x0E, 0, 0], Copy(0, 4));
    assert [4, 0x0C] + [97, 98, 99, 100] + [0x0E, 0, 0] == [4, 0x0C, 97, 98, 99, 100, 0x0E, 0, 0];
  }

  lemma NoCopyAtStart(s: bytes)
    requires |s| == 4 && s[0] < 0x80 && s[1] == 0x12 && s[2] == 0 && s[3] == 0
    ensures Decode(s) == None
  {
    var body := s[1..];
    assert ReadStream(s) == Some(Header(s[0], 1));
    FarCopy(body);
    hide ParseElement, Step;
    OnlyElement([], s[0], body, Copy(0, 5));
    StepMeans([], s[0], [], 0, 5);
  }

  // A copy with a four-byte offset, which the compressor never writes.
  lemma FourByteOffset()
    ensures Decode([8, 0x0C, 97, 98, 99, 100, 0x0F, 4, 0, 0, 0]) == Some([97, 98, 99, 100, 97, 98, 99, 100])
  {
    hide ParseElement, Decode;
    var out: bytes := [97, 98, 99, 100];
    FarthestCopy([0x0F, 4, 0, 0, 0]);
    LiteralThenCopy(8, out, [0x0F, 4, 0, 0, 0], Copy(4, 4));
    assert [8, 0x0C] + out + [0x0F, 4, 0, 0, 0] == [8, 0x0C, 97, 98, 99, 100, 0x0F, 4, 0, 0, 0];
    assert CopyBack(out, 4, 4) == [97, 98, 99, 100, 97, 98, 99, 100];
  }
}
