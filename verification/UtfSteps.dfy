/** One step of each of the six converters, and what conversions made of such steps
    do to text.
 */
module UtfSteps {
  import opened Machine
  import opened UtfCodec
  import opened Conversions

  // ----- Reading a character

  datatype Read = Got(used: nat, ch: Code) | Missing | Wrong

  function Read8(src: seq<Byte>): (r: Read)
    requires src != []
    ensures r.Got? ==> r.used == Trailing(src[0]) + 1 <= |src|
  {
    var n := Trailing(src[0]) + 1;
    if n > |src| then Missing
    else if !IsLegal(src[..n]) then Wrong
    else Got(n, Value(src[..n]))
  }

  function Read16(src: seq<Unit>, strict: bool): (r: Read)
    requires src != []
    ensures r.Got? ==> 0 < r.used <= |src| && r.ch <= 0x10FFFF
  {
    if HighHalf(src[0]) then
      if |src| < 2 then Missing
      else if LowHalf(src[1]) then Got(2, Pair(src[0], src[1]))
      else if strict then Wrong else Got(1, src[0])
    else if strict && LowHalf(src[0]) then Wrong
    else Got(1, src[0])
  }

  // ----- The steps

  function Step8to16(src: seq<Byte>, room: nat, strict: bool): Step<Unit>
    requires src != []
  {
    match Read8(src)
    case Missing => Halt(SourceExhausted)
    case Wrong => Halt(SourceIllegal)
    case Got(n, ch) =>
      if room == 0 then Halt(TargetExhausted)
      else if ch <= 0xFFFF then
        if !Surrogate(ch) then Emit(n, [ch], false)
        else if strict then Halt(SourceIllegal) else Emit(n, [REPLACEMENT], false)
      else if ch > 0x10FFFF then
        if strict then Halt(SourceIllegal) else Emit(n, [REPLACEMENT], false)
      else if room == 1 then Halt(TargetExhausted)
      else Emit(n, Put16(ch), false)
  }

  function Step8to32(src: seq<Byte>, room: nat, strict: bool): Step<Code>
    requires src != []
  {
    match Read8(src)
    case Missing => Halt(SourceExhausted)
    case Wrong => Halt(SourceIllegal)
    case Got(n, ch) =>
      if room == 0 then Halt(TargetExhausted)
      else if ch <= 0x10FFFF then
        if !Surrogate(ch) then Emit(n, [ch], false)
        else if strict then Halt(SourceIllegal) else Emit(n, [REPLACEMENT], false)
      else Emit(n, [REPLACEMENT], true)
  }

  function Step16to8(src: seq<Unit>, room: nat, strict: bool): Step<Byte>
    requires src != []
  {
    match Read16(src, strict)
    case Missing => Halt(SourceExhausted)
    case Wrong => Halt(SourceIllegal)
    case Got(n, ch) =>
      if |Put8(ch)| > room then Halt(TargetExhausted) else Emit(n, Put8(ch), false)
  }

  function Step16to32(src: seq<Unit>, room: nat, strict: bool): Step<Code>
    requires src != []
  {
    match Read16(src, strict)
    case Missing => Halt(SourceExhausted)
    case Wrong => Halt(SourceIllegal)
    case Got(n, ch) =>
      if room == 0 then Halt(TargetExhausted) else Emit(n, [ch], false)
  }

  function Step32to8(src: seq<Code>, room: nat, strict: bool): Step<Byte>
    requires src != []
  {
    var ch := src[0];
    if strict && Surrogate(ch) then Halt(SourceIllegal)
    else if |Put8(ch)| > room then Halt(TargetExhausted)
    else Emit(1, Put8(ch), ch > 0x10FFFF)
  }

  function Step32to16(src: seq<Code>, room: nat, strict: bool): Step<Unit>
    requires src != []
  {
    var ch := src[0];
    if room == 0 then Halt(TargetExhausted)
    else if ch <= 0xFFFF then
      if !Surrogate(ch) then Emit(1, [ch], false)
      else if strict then Halt(SourceIllegal) else Emit(1, [REPLACEMENT], false)
    else if ch > 0x10FFFF then
      if strict then Emit(1, [], true) else Emit(1, [REPLACEMENT], false)
    else if room == 1 then Halt(TargetExhausted)
    else Emit(1, Put16(ch), false)
  }

  // ----- The converters as steppers

  function From8To16(strict: bool): Stepper<Byte, Unit>
  {
    (src: seq<Byte>, room: nat) => if src == [] then Halt(ConversionOK) else Step8to16(src, room, strict)
  }

  function From8To32(strict: bool): Stepper<Byte, Code>
  {
    (src: seq<Byte>, room: nat) => if src == [] then Halt(ConversionOK) else Step8to32(src, room, strict)
  }

  function From16To8(strict: bool): Stepper<Unit, Byte>
  {
    (src: seq<Unit>, room: nat) => if src == [] then Halt(ConversionOK) else Step16to8(src, room, strict)
  }

  function From16To32(strict: bool): Stepper<Unit, Code>
  {
    (src: seq<Unit>, room: nat) => if src == [] then Halt(ConversionOK) else Step16to32(src, room, strict)
  }

  function From32To8(strict: bool): Stepper<Code, Byte>
  {
    (src: seq<Code>, room: nat) => if src == [] then Halt(ConversionOK) else Step32to8(src, room, strict)
  }

  function From32To16(strict: bool): Stepper<Code, Unit>
  {
    (src: seq<Code>, room: nat) => if src == [] then Halt(ConversionOK) else Step32to16(src, room, strict)
  }

  /** How much room is enough: in units of the target for one of the source. */
  lemma AllRoomy(strict: bool)
    ensures Roomy(From8To16(strict), 2) && Roomy(From8To32(strict), 1)
    ensures Roomy(From16To8(strict), 4) && Roomy(From16To32(strict), 1)
    ensures Roomy(From32To8(strict), 4) && Roomy(From32To16(strict), 2)
  {
    BytesRoomy(strict);
    UnitsRoomy(strict);
    assert Roomy(From32To8(strict), 4);
    assert Roomy(From32To16(strict), 2);
  }

  lemma BytesRoomy(strict: bool)
    ensures Roomy(From8To16(strict), 2) && Roomy(From8To32(strict), 1)
  {
  }

  lemma UnitsRoomy(strict: bool)
    ensures Roomy(From16To8(strict), 4) && Roomy(From16To32(strict), 1)
  {
  }

  /** The converters that can go on in a new buffer without losing an error: those from
      UTF-8 and UTF-16, which note none. */
  lemma AllResumable(strict: bool)
    ensures Resumable(From8To16(strict), 2) && Resumable(From8To32(strict), 1)
    ensures Resumable(From16To8(strict), 4) && Resumable(From16To32(strict), 1)
  {
    BytesResumable(strict);
    assert Resumable(From16To8(strict), 4);
    assert Resumable(From16To32(strict), 1);
  }

  lemma BytesResumable(strict: bool)
    ensures Resumable(From8To16(strict), 2) && Resumable(From8To32(strict), 1)
  {
    forall src: seq<Byte> | src != []
      ensures Read8(src).Got? ==> Scalar(Read8(src).ch)
    {
      ReadIsScalar(src);
    }
  }

  lemma ReadIsScalar(src: seq<Byte>)
    requires src != []
    ensures Read8(src).Got? ==> Scalar(Read8(src).ch)
  {
    if Read8(src).Got? {
      LegalIsScalar(src[..Trailing(src[0]) + 1]);
    }
  }

  // ----- Text as a sequence of scalar values

  /** A text: every element is a scalar value. */
  predicate IsText(xs: seq<Code>)
  {
    forall i :: 0 <= i < |xs| ==> Scalar(xs[i])
  }

  type Encoding<!S> = Code -> seq<S>

  ghost function Encoded<S>(encode: Encoding<S>, xs: seq<Code>): seq<S>
  {
    if xs == [] then [] else encode(xs[0]) + Encoded(encode, xs[1..])
  }

  function In8(): Encoding<Byte>
  {
    ch => Put8(ch)
  }

  function In16(): Encoding<Unit>
  {
    (ch: Code) => if ch <= 0x10FFFF then Put16(ch) else []
  }

  function In32(): Encoding<Code>
  {
    ch => [ch]
  }

  /** At an encoded character the step yields the character in the other encoding. */
  ghost predicate Transcodes<S(!new), U>(step: Stepper<S, U>, k: nat, a: Encoding<S>, b: Encoding<U>)
  {
    forall x: Code, rest: seq<S> :: Scalar(x) ==> TranscodesAt(step, k, a(x), rest, b(x))
  }

  ghost predicate TranscodesAt<S, U>(step: Stepper<S, U>, k: nat, a: seq<S>, rest: seq<S>, b: seq<U>)
  {
    a != [] && step(a + rest, k) == Emit(|a|, b, false)
  }

  lemma {:induction false} TextConverts<S(!new), U>(
      step: Stepper<S, U>, k: nat, a: Encoding<S>, b: Encoding<U>, xs: seq<Code>, status: Status)
    requires Transcodes(step, k, a, b) && IsText(xs)
    ensures ConvertAll(step, k, Encoded(a, xs), status) == Outcome(status, |Encoded(a, xs)|, Encoded(b, xs))
    decreases |xs|
  {
    if xs != [] {
      var src, rest := Encoded(a, xs), Encoded(a, xs[1..]);
      TextConverts(step, k, a, b, xs[1..], status);
      assert TranscodesAt(step, k, a(xs[0]), rest, b(xs[0]));
      assert src[|a(xs[0])|..] == rest;
    }
  }

  /** The step yields nothing but encoded characters, or notes an error. */
  ghost predicate OnlyTranscodes<S(!new), U>(step: Stepper<S, U>, k: nat, a: Encoding<S>, b: Encoding<U>)
  {
    forall src: seq<S> {:trigger step(src, k)} :: src != [] && step(src, k).Emit? && !step(src, k).bad ==>
      exists x: Code :: Takes(src, step(src, k), x, a(x), b(x))
  }

  /** The step takes the encoded scalar `x` off the source and yields it in the other
      encoding. */
  ghost predicate Takes<S, U>(src: seq<S>, s: Step<U>, x: Code, a: seq<S>, b: seq<U>)
  {
    Scalar(x) && a != [] && a <= src && s == Emit(|a|, b, false)
  }

  lemma {:induction false} ErrorsStick<S, U>(step: Stepper<S, U>, k: nat, src: seq<S>)
    ensures ConvertAll(step, k, src, SourceIllegal).status == ConversionOK ==>
              exists s: seq<S> :: s != [] && step(s, k) == Halt(ConversionOK)
    decreases |src|
  {
    if src != [] {
      var s := step(src, k);
      if s.Emit? && 0 < s.used <= |src| {
        ErrorsStick(step, k, src[s.used..]);
      } else if s == Halt(ConversionOK) {
        assert step(src, k) == Halt(ConversionOK);
      }
    }
  }

  /** No step stops with success. */
  ghost predicate Honest<S(!new), U>(step: Stepper<S, U>, k: nat)
  {
    forall src: seq<S> {:trigger step(src, k)} :: src != [] ==>
      && step(src, k) != Halt(ConversionOK)
      && (step(src, k).Emit? ==> 0 < step(src, k).used <= |src|)
  }

  /** Only text is converted successfully. */
  lemma {:induction false} OnlyText<S(!new), U>(
      step: Stepper<S, U>, k: nat, a: Encoding<S>, b: Encoding<U>, src: seq<S>) returns (xs: seq<Code>)
    requires OnlyTranscodes(step, k, a, b) && Honest(step, k)
    requires ConvertAll(step, k, src, ConversionOK).status == ConversionOK
    ensures IsText(xs) && src == Encoded(a, xs)
    decreases |src|
  {
    if src == [] {
      xs := [];
    } else {
      var s := step(src, k);
      if s.bad {
        ErrorsStick(step, k, src[s.used..]);
      }
      var x: Code :| Takes(src, s, x, a(x), b(x));
      var rest := OnlyText(step, k, a, b, src[|a(x)|..]);
      xs := [x] + rest;
      assert xs[1..] == rest;
    }
  }

  /** A strict conversion succeeds on encoded text and on nothing else. */
  lemma SuccessExact<S(!new), U>(step: Stepper<S, U>, k: nat, a: Encoding<S>, b: Encoding<U>, src: seq<S>)
    requires Transcodes(step, k, a, b) && OnlyTranscodes(step, k, a, b) && Honest(step, k)
    ensures ConvertAll(step, k, src, ConversionOK).status == ConversionOK <==> exists xs :: IsText(xs) && src == Encoded(a, xs)
  {
    if ConvertAll(step, k, src, ConversionOK).status == ConversionOK {
      var xs := OnlyText(step, k, a, b, src);
    }
    if xs :| IsText(xs) && src == Encoded(a, xs) {
      TextConverts(step, k, a, b, xs, ConversionOK);
    }
  }
}
