/**
 Converting text from one encoding to another, as much as there is input and room for. A call
 can be resumed where it stopped, with more input, more room, or both.
 */
module Conv {
  import opened Bytes
  import opened ConvCodecs
  import CharsetBlocks
  import CharsetMeaning

  /** Why a call stops; `Aborted` is the assertion that a decoder gives scalar values only. */
  datatype Stop = Finished | NoRoom | Incomplete | IllegalInput | Aborted

  datatype Result = Result(consumed: nat, output: seq<byte>, replaced: nat, stop: Stop)

  /** A question mark stands for what a charset does not have. */
  const REPLACEMENT: byte := 0x3F

  function Output(to: Codec, cp: nat): (b: seq<byte>)
    requires cp <= UNICODE_MAX
    ensures |b| > 0
  {
    if Encode(to, cp) == [] then [REPLACEMENT] else Encode(to, cp)
  }

  function Replaced(to: Codec, cp: nat): nat
    requires cp <= UNICODE_MAX
  {
    if Encode(to, cp) == [] then 1 else 0
  }

  /** One character and then the rest. */
  function Then(n: nat, to: Codec, cp: nat, r: Result): Result
    requires cp <= UNICODE_MAX
  {
    Result(n + r.consumed, Output(to, cp) + r.output, Replaced(to, cp) + r.replaced, r.stop)
  }

  /** What one call does. */
  function Run(from: Codec, to: Codec, s: seq<byte>, room: nat): (r: Result)
    ensures r.consumed <= |s|
    decreases |s|
  {
    if s == [] then Result(0, [], 0, Finished)
    else
      match Decode(from, s)
      case TooShort => Result(0, [], 0, Incomplete)
      case Illegal(_) => Result(0, [], 0, IllegalInput)
      case Char(cp, n) =>
        DecodedSize(from, s);
        if !IsScalar(cp) then Result(0, [], 0, Aborted)
        else if |Output(to, cp)| > room then Result(0, [], 0, NoRoom)
        else Then(n, to, cp, Run(from, to, s[n..], room - |Output(to, cp)|))
  }

  /** What a call does with all the room it needs. */
  function Whole(from: Codec, to: Codec, s: seq<byte>): (r: Result)
    ensures r.consumed <= |s| && r.stop != NoRoom
    decreases |s|
  {
    if s == [] then Result(0, [], 0, Finished)
    else
      match Decode(from, s)
      case TooShort => Result(0, [], 0, Incomplete)
      case Illegal(_) => Result(0, [], 0, IllegalInput)
      case Char(cp, n) =>
        DecodedSize(from, s);
        if !IsScalar(cp) then Result(0, [], 0, Aborted)
        else Then(n, to, cp, Whole(from, to, s[n..]))
  }

  /** What stops a call at its first character, if anything does. */
  function StopsAt(from: Codec, to: Codec, s: seq<byte>, room: nat): Option<Stop> {
    if s == [] then Some(Finished)
    else
      match Decode(from, s)
      case TooShort => Some(Incomplete)
      case Illegal(_) => Some(IllegalInput)
      case Char(cp, _) =>
        if !IsScalar(cp) then Some(Aborted) else if |Output(to, cp)| > room then Some(NoRoom) else None
  }

  lemma RunOnce(from: Codec, to: Codec, s: seq<byte>, room: nat)
    ensures StopsAt(from, to, s, room).Some? ==>
            Run(from, to, s, room) == Result(0, [], 0, StopsAt(from, to, s, room).v)
    ensures StopsAt(from, to, s, room).None? ==>
      var d := Decode(from, s);
      && s != [] && d.Char? && IsScalar(d.cp) && 0 < d.n <= |s| && |Output(to, d.cp)| <= room
      && Run(from, to, s, room) == Then(d.n, to, d.cp, Run(from, to, s[d.n..], room - |Output(to, d.cp)|))
  {
    if StopsAt(from, to, s, room).None? {
      DecodedSize(from, s);
    }
  }

  /** The whole input is stopped by the input alone. */
  lemma WholeOnce(from: Codec, to: Codec, s: seq<byte>, room: nat)
    ensures var stop := StopsAt(from, to, s, room);
            && (stop.Some? && stop.v != NoRoom ==> Whole(from, to, s) == Result(0, [], 0, stop.v))
            && (stop.None? ==>
                  var d := Decode(from, s);
                  s != [] && d.Char? && IsScalar(d.cp) && d.n <= |s|
                    && Whole(from, to, s) == Then(d.n, to, d.cp, Whole(from, to, s[d.n..])))
  {
    if StopsAt(from, to, s, room).None? {
      DecodedSize(from, s);
    }
  }

  /** More input stops at the same place, unless it was missing. */
  lemma StopsAtMore(from: Codec, to: Codec, s: seq<byte>, room: nat, more: seq<byte>)
    requires s != [] && !Decode(from, s).TooShort?
    ensures StopsAt(from, to, s + more, room) == StopsAt(from, to, s, room) && Decode(from, s + more) == Decode(from, s)
  {
    hide Decode;
    DecodeMore(from, s, more);
  }

  // ---- the call

  method StoreAt(out: array<byte>, i: nat, b: seq<byte>)
    requires i + |b| <= out.Length
    modifies out
    ensures out[..i + |b|] == old(out[..i]) + b && out[i + |b|..] == old(out[i + |b|..])
  {
    for j := 0 to |b|
      invariant forall k :: 0 <= k < j ==> out[i + k] == b[k]
      invariant forall k :: 0 <= k < i || i + j <= k < out.Length ==> out[k] == old(out[k])
    {
      out[i + j] := b[j];
    }
  }

  /** Fills `out` from its start; bytes beyond what is produced are left alone. */
  method Convert(from: Codec, to: Codec, s: seq<byte>, out: array<byte>)
    returns (consumed: nat, produced: nat, replaced: nat, stop: Stop)
    modifies out
    ensures produced <= out.Length && Result(consumed, out[..produced], replaced, stop) == Run(from, to, s, out.Length)
    ensures out[produced..] == old(out[produced..])
  {
    hide Decode, Encode, IsScalar, Run, Output, Replaced, Then, Append;
    consumed, produced, replaced, stop := 0, 0, 0, Finished;
    ghost var before := out[..];
    AppendNothing(Run(from, to, s, out.Length));
    assert s[0..] == s;
    while consumed < |s|
      invariant consumed <= |s| && produced <= out.Length && out[produced..] == before[produced..] && stop == Finished
      invariant Run(from, to, s, out.Length) ==
                Append(Result(consumed, out[..produced], replaced, Finished),
                  Run(from, to, s[consumed..], out.Length - produced))
    {
      RunOnce(from, to, s[consumed..], out.Length - produced);
      ghost var done := Result(consumed, out[..produced], replaced, Finished);
      StopHere(done);
      match Decode(from, s[consumed..]) {
        case TooShort =>
          stop := Incomplete;
          return;
        case Illegal(_) =>
          stop := IllegalInput;
          return;
        case Char(cp, n) =>
          if !IsScalar(cp) {
            stop := Aborted;
            return;
          }
          ScalarIsCode(cp);
          var b := Output(to, cp);
          if |b| > out.Length - produced {
            stop := NoRoom;
            return;
          }
          StoreAt(out, produced, b);
          DropMore(before, produced, |b|);
          DropMore(s, consumed, n);
          AppendStep(done, n, to, cp, Run(from, to, s[consumed..][n..], out.Length - produced - |b|));
          replaced := replaced + Replaced(to, cp);
          consumed, produced := consumed + n, produced + |b|;
      }
    }
    RunOnce(from, to, s[consumed..], out.Length - produced);
    StopHere(Result(consumed, out[..produced], replaced, Finished));
  }

  lemma DropMore(s: seq<byte>, i: nat, n: nat)
    requires i + n <= |s|
    ensures s[i..][n..] == s[i + n..]
  {
  }

  lemma StopHere(r: Result)
    ensures forall stop :: Append(r, Result(0, [], 0, stop)) == r.(stop := stop)
  {
  }

  function Append(r: Result, q: Result): Result {
    Result(r.consumed + q.consumed, r.output + q.output, r.replaced + q.replaced, q.stop)
  }

  lemma ScalarIsCode(cp: nat)
    requires IsScalar(cp)
    ensures cp <= UNICODE_MAX
  {
  }

  lemma AppendStep(r: Result, n: nat, to: Codec, cp: nat, q: Result)
    requires cp <= UNICODE_MAX
    ensures Append(r, Then(n, to, cp, q))
            == Append(Result(r.consumed + n, r.output + Output(to, cp), r.replaced + Replaced(to, cp), Finished), q)
  {
    ConcatAssoc(r.output, Output(to, cp), q.output);
  }

  // ---- resuming

  /** A call can be resumed unless the input itself is at fault. */
  predicate Resumable(stop: Stop) {
    stop == Finished || stop == NoRoom || stop == Incomplete
  }

  /** What is left to do after a call, with more input, makes up the whole. */
  lemma {:induction false} Resuming(from: Codec, to: Codec, s: seq<byte>, room: nat, more: seq<byte>)
    ensures var r := Run(from, to, s, room);
            Whole(from, to, s + more) == if Resumable(r.stop) then Append(r, Whole(from, to, s[r.consumed..] + more))
              else r
    decreases |s|
  {
    hide Decode, Encode, IsScalar, Run, Whole, Output, Replaced, Then, StopsAt, Append;
    var r, stop := Run(from, to, s, room), StopsAt(from, to, s, room);
    RunOnce(from, to, s, room);
    if stop.Some? {
      AppendNothing(Whole(from, to, s + more));
      assert s[0..] == s;
      if !Resumable(stop.v) {
        StopMeans(from, to, s, room);
        StopsAtMore(from, to, s, room, more);
        WholeOnce(from, to, s + more, room);
      }
    } else {
      var d := Decode(from, s);
      var q := Run(from, to, s[d.n..], room - |Output(to, d.cp)|);
      StopsAtMore(from, to, s, room, more);
      WholeOnce(from, to, s + more, room);
      Resuming(from, to, s[d.n..], room - |Output(to, d.cp)|, more);
      assert (s + more)[d.n..] == s[d.n..] + more;
      ScalarIsCode(d.cp);
      ThenKeeps(d.n, to, d.cp, q);
      DropMore(s, d.n, q.consumed);
      AppendThen(d.n, to, d.cp, q, Whole(from, to, s[r.consumed..] + more));
    }
  }

  lemma ThenKeeps(n: nat, to: Codec, cp: nat, q: Result)
    requires cp <= UNICODE_MAX
    ensures Then(n, to, cp, q).stop == q.stop && Then(n, to, cp, q).consumed == n + q.consumed
  {
  }

  lemma StopMeans(from: Codec, to: Codec, s: seq<byte>, room: nat)
    requires StopsAt(from, to, s, room).Some? && !Resumable(StopsAt(from, to, s, room).v)
    ensures s != [] && !Decode(from, s).TooShort?
  {
    hide Decode;
  }

  lemma AppendNothing(r: Result)
    ensures forall stop :: Append(Result(0, [], 0, stop), r) == r
  {
  }

  lemma AppendThen(n: nat, to: Codec, cp: nat, q: Result, w: Result)
    requires cp <= UNICODE_MAX
    ensures Append(Then(n, to, cp, q), w) == Then(n, to, cp, Append(q, w))
  {
    ConcatAssoc(Output(to, cp), q.output, w.output);
  }

  /** Each call comes with some more input and some room. */
  datatype Call = Call(input: seq<byte>, room: nat)

  function AllInput(calls: seq<Call>): seq<byte> {
    if calls == [] then [] else calls[0].input + AllInput(calls[1..])
  }

  /** A caller that keeps what was not consumed and goes on until the input is at fault. */
  function Feed(from: Codec, to: Codec, kept: seq<byte>, calls: seq<Call>): (r: (seq<byte>, seq<byte>, bool))
    decreases |calls|
  {
    if calls == [] then ([], kept, true)
    else
      var s := kept + calls[0].input;
      var r := Run(from, to, s, calls[0].room);
      if !Resumable(r.stop) then (r.output, s[r.consumed..], false)
      else
        var f := Feed(from, to, s[r.consumed..], calls[1..]);
        (r.output + f.0, f.1, f.2)
  }

  /**
   However the input is cut and however much room each call has, the output is that of the whole
   input: all of it if the input is at fault, and else up to what is kept for later.
   */
  lemma {:induction false} CuttingDoesNotMatter(from: Codec, to: Codec, kept: seq<byte>, calls: seq<Call>)
    ensures var f := Feed(from, to, kept, calls);
            Whole(from, to, kept + AllInput(calls)).output == if f.2 then f.0 + Whole(from, to, f.1).output else f.0
    decreases |calls|
  {
    hide Run, Whole;
    if calls == [] {
      ConcatEmpty(kept);
      ConcatEmpty(Whole(from, to, kept).output);
    } else {
      var s, more := kept + calls[0].input, AllInput(calls[1..]);
      var r := Run(from, to, s, calls[0].room);
      ConcatAssoc(kept, calls[0].input, more);
      Resuming(from, to, s, calls[0].room, more);
      if Resumable(r.stop) {
        var f := Feed(from, to, s[r.consumed..], calls[1..]);
        CuttingDoesNotMatter(from, to, s[r.consumed..], calls[1..]);
        ConcatAssoc(r.output, f.0, Whole(from, to, f.1).output);
      }
    }
  }

  // ---- what the output means

  predicate AllScalar(cps: seq<nat>) {
    forall i :: 0 <= i < |cps| ==> IsScalar(cps[i])
  }

  function EncodeAll(to: Codec, cps: seq<nat>): (b: seq<byte>)
    requires AllScalar(cps)
  {
    if cps == [] then [] else Output(to, cps[0]) + EncodeAll(to, cps[1..])
  }

  /** The characters that tile `s` exactly, if there are any. */
  function DecodeAll(from: Codec, s: seq<byte>): Option<seq<nat>>
    decreases |s|
  {
    if s == [] then Some([])
    else if !Decode(from, s).Char? then None
    else
      DecodedSize(from, s);
      var more := DecodeAll(from, s[Decode(from, s).n..]);
      if more.None? then None else Some([Decode(from, s).cp] + more.v)
  }

  /** What is consumed are whole characters, and the output is their encodings; the next one is what stops the call. */
  lemma {:induction false} OutputIsMeaning(from: Codec, to: Codec, s: seq<byte>, room: nat)
    ensures var r := Run(from, to, s, room);
            var cps := DecodeAll(from, s[..r.consumed]);
            && cps.Some? && AllScalar(cps.v) && r.output == EncodeAll(to, cps.v) && |r.output| <= room
            && StopsAt(from, to, s[r.consumed..], room - |r.output|) == Some(r.stop)
    decreases |s|
  {
    hide Decode, Encode, IsScalar, Run, Output, StopsAt, DecodeAll;
    var r, stop := Run(from, to, s, room), StopsAt(from, to, s, room);
    RunOnce(from, to, s, room);
    if stop.Some? {
      assert s[..0] == [] && s[0..] == s;
      NothingDecoded(from);
    } else {
      var d := Decode(from, s);
      ScalarIsCode(d.cp);
      var q := Run(from, to, s[d.n..], room - |Output(to, d.cp)|);
      OutputIsMeaning(from, to, s[d.n..], room - |Output(to, d.cp)|);
      DropMore(s, d.n, q.consumed);
      assert s[..r.consumed][d.n..] == s[d.n..][..q.consumed];
      DecodeLess(from, s, r.consumed);
      FirstDecoded(from, s[..r.consumed]);
      var cps := DecodeAll(from, s[d.n..][..q.consumed]).v;
      assert ([d.cp] + cps)[1..] == cps;
    }
  }

  /**
   The assertion that a decoder gives scalar values fails exactly where UTF-8 input has the
   bytes of a surrogate half, or where a charset has a byte for one.
   */
  lemma WhenAborted(from: Codec, to: Codec, s: seq<byte>, room: nat)
    ensures var r := Run(from, to, s, room);
            var more := s[r.consumed..];
            r.stop == Aborted <==>
              || (from.Utf8? && IsSurrogateAt(more))
              || (from.SingleByte? && more != [] && GivesNoScalar(from.toUni, more[0]))
  {
    hide Decode, Encode, IsScalar, Run, Output, DecodeAll, IsSurrogateAt, GivesNoScalar;
    OutputIsMeaning(from, to, s, room);
    var r := Run(from, to, s, room);
    var more := s[r.consumed..];
    if more == [] {
      NoSurrogateThere();
    } else {
      DecodesNoScalar(from, more);
    }
  }

  lemma NoSurrogateThere()
    ensures !IsSurrogateAt([])
  {
  }

  lemma SurrogateAborts(to: Codec, room: nat)
    ensures Run(Utf8, to, [0xED, 0xA0, 0x80], room) == Result(0, [], 0, Aborted)
  {
  }

  /** A line of a charset for the byte, with a surrogate half as its target, and not lost. */
  predicate HasSurrogate(maps: seq<CharsetCode.Map>, b: byte) {
    exists i :: 0 <= i < |maps| && maps[i].from == b && SUR_HIGH_START <= maps[i].to <= SUR_LOW_END
                && !CharsetBlocks.Lost(maps, i)
  }

  /** So, with a compiled charset, it fails exactly at the byte of such a line. */
  lemma CharsetAborts(maps: seq<CharsetCode.Map>, p: CharsetCode.Program, q: CharsetCode.Program, to: Codec,
                      s: seq<byte>, room: nat)
    requires CharsetCode.Legal(maps, true) && CharsetBlocks.Decodes(p, maps)
    ensures var r := Run(SingleByte(p, q), to, s, room);
            var more := s[r.consumed..];
            r.stop == Aborted <==> more != [] && HasSurrogate(maps, more[0])
  {
    hide Run, CharsetCode.Eval, CharsetBlocks.Lost, CharsetBlocks.Answered, CharsetBlocks.Decodes, HasSurrogate;
    WhenAborted(SingleByte(p, q), to, s, room);
    var more := s[Run(SingleByte(p, q), to, s, room).consumed..];
    if more != [] {
      AnsweredIsSurrogate(maps, p, more[0]);
    }
  }

  lemma AnsweredIsSurrogate(maps: seq<CharsetCode.Map>, p: CharsetCode.Program, b: byte)
    requires CharsetCode.Legal(maps, true) && CharsetBlocks.Decodes(p, maps)
    ensures GivesNoScalar(p, b) <==> HasSurrogate(maps, b)
  {
    hide CharsetCode.Eval, CharsetBlocks.Lost;
    var k := CharsetCode.IndexOfCode(maps, b);
    assert CharsetCode.Eval(p, true, b) == CharsetBlocks.Answered(maps, b);
    if k < |maps| {
      assert forall i :: 0 <= i < |maps| && maps[i].from == b ==> i == k;
    }
  }

  const SURROGATE_LINES: seq<CharsetCode.Map> := [CharsetCode.Map(0x80, 0xD801)]
  const SURROGATE_DECODER: CharsetCode.Program :=
    CharsetCode.Program([], [CharsetCode.Arm(CharsetCode.Is(0x80), CharsetCode.Constant(0xD801))], true)

  /** A charset of one line, which its decoder computes, and the byte on which the assertion fails. */
  lemma CharsetSurrogateAborts(q: CharsetCode.Program, to: Codec, room: nat)
    ensures CharsetCode.Legal(SURROGATE_LINES, true)
    ensures CharsetMeaning.Computes(SURROGATE_DECODER, SURROGATE_LINES, true)
    ensures Run(SingleByte(SURROGATE_DECODER, q), to, [0x80], room) == Result(0, [], 0, Aborted)
  {
    SurrogateDecoder(0x80);
    forall c: nat | c <= 0xFF
      ensures CharsetCode.Eval(SURROGATE_DECODER, true, c) == CharsetCode.Expected(SURROGATE_LINES, c)
    {
      SurrogateDecoder(c);
    }
  }

  lemma SurrogateDecoder(c: nat)
    ensures CharsetCode.Eval(SURROGATE_DECODER, true, c) == CharsetCode.Expected(SURROGATE_LINES, c)
            == if c == 0x80 then CharsetCode.Code(0xD801) else CharsetCode.Error
  {
    var p, maps := SURROGATE_DECODER, SURROGATE_LINES;
    assert p.arms[1..] == [] && maps[1..] == [];
    assert CharsetCode.Chain([], [], true, true, c) == CharsetCode.Error;
    assert CharsetCode.IndexOfCode(maps, c) == if c == 0x80 then 0 else 1;
  }

  lemma NothingDecoded(from: Codec)
    ensures DecodeAll(from, []) == Some([])
  {
  }

  lemma FirstDecoded(from: Codec, s: seq<byte>)
    requires s != [] && Decode(from, s).Char?
    ensures 0 < Decode(from, s).n <= |s|
    ensures var more := DecodeAll(from, s[Decode(from, s).n..]);
            DecodeAll(from, s) == if more.None? then None else Some([Decode(from, s).cp] + more.v)
  {
    DecodedSize(from, s);
  }

  /** A character does not depend on what follows it. */
  lemma DecodeLess(c: Codec, s: seq<byte>, m: nat)
    requires s != [] && Decode(c, s).Char? && Decode(c, s).n <= m <= |s|
    ensures 0 < m && Decode(c, s[..m]) == Decode(c, s)
  {
    DecodedSize(c, s);
    match c
    case Utf8 =>
    case Utf16(big) =>
      if m >= 4 {
        assert s[..m][2..][..2] == s[2..][..2];
      }
    case Utf32(big) =>
      assert s[..m][..4] == s[..4];
    case SingleByte(_, _) =>
  }

  // ---- there and back

  /** What is decoded is encoded as the bytes that it came from. */
  ghost predicate Faithful(c: Codec) {
    forall s: seq<byte> :: s != [] && Decode(c, s).Char? && IsScalar(Decode(c, s).cp) ==> IsFaithfulAt(c, s)
  }

  predicate IsFaithfulAt(c: Codec, s: seq<byte>)
    requires s != [] && Decode(c, s).Char? && IsScalar(Decode(c, s).cp)
  {
    Decode(c, s).n <= |s| && Encode(c, Decode(c, s).cp) == s[..Decode(c, s).n]
  }

  lemma UtfIsFaithful(c: Codec)
    requires IsUtf(c)
    ensures Faithful(c)
  {
    forall s: seq<byte> | s != [] && Decode(c, s).Char? && IsScalar(Decode(c, s).cp)
      ensures IsFaithfulAt(c, s)
    {
      EncodeOfDecode(c, s);
    }
  }

  /** So is a charset for which both compiled functions are right. */
  lemma CharsetIsFaithful(maps: seq<CharsetCode.Map>, back: seq<CharsetCode.Map>, p: CharsetCode.Program,
                          q: CharsetCode.Program)
    requires CharsetCode.Legal(maps, true) && CharsetCode.Legal(back, false) && CharsetMeaning.Swapped(maps, back)
    requires CharsetMeaning.Computes(p, maps, true) && CharsetMeaning.Computes(q, back, false)
    ensures Faithful(SingleByte(p, q))
  {
    hide CharsetCode.Eval, CharsetCode.Legal;
    var c := SingleByte(p, q);
    forall s: seq<byte> | s != [] && Decode(c, s).Char? && IsScalar(Decode(c, s).cp)
      ensures IsFaithfulAt(c, s)
    {
      CharsetMeaning.ThereAndBack(maps, p, back, q, s[0], Decode(c, s).cp);
      assert s[..1] == [s[0]];
    }
  }

  lemma NothingConverted(from: Codec, to: Codec)
    ensures Whole(from, to, []) == Result(0, [], 0, Finished)
  {
  }

  /** A conversion that finishes begins with a scalar value. */
  lemma FinishedStep(from: Codec, to: Codec, s: seq<byte>)
    requires s != [] && Whole(from, to, s).stop == Finished
    ensures var d := Decode(from, s);
            && d.Char? && IsScalar(d.cp) && 0 < d.n <= |s|
            && Whole(from, to, s) == Then(d.n, to, d.cp, Whole(from, to, s[d.n..]))
            && Whole(from, to, s[d.n..]).stop == Finished
  {
    hide Decode, Encode, IsScalar;
    if Decode(from, s).Char? {
      DecodedSize(from, s);
    }
  }

  /** The encoding of a scalar value in front of other input. */
  lemma EncodedStep(from: Codec, to: Codec, cp: nat, more: seq<byte>)
    requires IsUtf(from) && IsScalar(cp)
    ensures Whole(from, to, Output(from, cp) + more) == Then(|Output(from, cp)|, to, cp, Whole(from, to, more))
  {
    hide Decode, Encode, Whole;
    var b := Output(from, cp);
    DecodeOfEncode(from, cp, more);
    WholeOnce(from, to, b + more, |Output(to, cp)|);
    SplitConcat(b, more);
  }

  /** Text that is converted without a stop from a faithful encoding to a UTF and back is the same. */
  lemma {:induction false} TextThereAndBack(c: Codec, d: Codec, s: seq<byte>)
    requires Faithful(c) && IsUtf(d) && Whole(c, d, s).stop == Finished
    ensures Whole(d, c, Whole(c, d, s).output) == Result(|Whole(c, d, s).output|, s, 0, Finished)
    decreases |s|
  {
    hide Decode, Encode, IsScalar, Whole, Faithful;
    if s == [] {
      NothingConverted(c, d);
      NothingConverted(d, c);
    } else {
      FinishedStep(c, d, s);
      var cp, n := Decode(c, s).cp, Decode(c, s).n;
      ScalarIsCode(cp);
      FaithfulAt(c, s);
      EncodedStep(d, c, cp, Whole(c, d, s[n..]).output);
      TextThereAndBack(c, d, s[n..]);
      assert s[..n] + s[n..] == s;
    }
  }

  lemma FaithfulAt(c: Codec, s: seq<byte>)
    requires Faithful(c) && s != [] && Decode(c, s).Char? && IsScalar(Decode(c, s).cp)
    ensures Decode(c, s).n <= |s| && Encode(c, Decode(c, s).cp) == s[..Decode(c, s).n]
  {
    assert IsFaithfulAt(c, s);
  }
}
