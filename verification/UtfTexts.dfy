/** What the converters do to Unicode text: which sources they take, and that going
    through another encoding form loses nothing.
 */
module UtfTexts {
  import opened Machine
  import opened UtfCodec
  import opened Conversions
  import opened UtfSteps

  // ----- One character

  lemma ReadsPut8(x: Code, rest: seq<Byte>)
    requires Scalar(x)
    ensures Read8(Put8(x) + rest) == Got(|Put8(x)|, x)
  {
    Put8Reads(x);
    assert (Put8(x) + rest)[..|Put8(x)|] == Put8(x);
  }

  lemma ReadsPut16(x: Code, rest: seq<Unit>, strict: bool)
    requires Scalar(x)
    ensures Read16(Put16(x) + rest, strict) == Got(|Put16(x)|, x)
  {
    Put16Reads(x);
  }

  lemma Transcode8(strict: bool)
    ensures Transcodes(From8To16(strict), 2, In8(), In16()) && Transcodes(From8To32(strict), 1, In8(), In32())
  {
    forall x: Code, rest: seq<Byte> | Scalar(x)
      ensures TranscodesAt(From8To16(strict), 2, In8()(x), rest, In16()(x))
      ensures TranscodesAt(From8To32(strict), 1, In8()(x), rest, In32()(x))
    {
      ReadsPut8(x, rest);
    }
  }

  lemma Transcode16(strict: bool)
    ensures Transcodes(From16To8(strict), 4, In16(), In8()) && Transcodes(From16To32(strict), 1, In16(), In32())
  {
    forall x: Code, rest: seq<Unit> | Scalar(x)
      ensures TranscodesAt(From16To8(strict), 4, In16()(x), rest, In8()(x))
      ensures TranscodesAt(From16To32(strict), 1, In16()(x), rest, In32()(x))
    {
      ReadsPut16(x, rest, strict);
    }
  }

  lemma Transcode32(strict: bool)
    ensures Transcodes(From32To8(strict), 4, In32(), In8()) && Transcodes(From32To16(strict), 2, In32(), In16())
  {
    forall x: Code, rest: seq<Code> | Scalar(x)
      ensures TranscodesAt(From32To8(strict), 4, In32()(x), rest, In8()(x))
      ensures TranscodesAt(From32To16(strict), 2, In32()(x), rest, In16()(x))
    {
    }
  }

  // ----- Round trips

  lemma {:induction false} EncodedAlone(xs: seq<Code>)
    ensures Encoded(In32(), xs) == xs
    decreases |xs|
  {
    if xs != [] {
      EncodedAlone(xs[1..]);
    }
  }

  /** Each of the six conversions takes text in one form to the same text in the
      other, strict or not, and uses the whole source. So every round trip between
      two forms restores the text. */
  lemma TextSurvives(xs: seq<Code>, strict: bool)
    requires IsText(xs)
    ensures ConvertAll(From32To8(strict), 4, xs, ConversionOK) == Outcome(ConversionOK, |xs|, Encoded(In8(), xs))
    ensures ConvertAll(From32To16(strict), 2, xs, ConversionOK) == Outcome(ConversionOK, |xs|, Encoded(In16(), xs))
    ensures ConvertAll(From8To32(strict), 1, Encoded(In8(), xs), ConversionOK) ==
            Outcome(ConversionOK, |Encoded(In8(), xs)|, xs)
    ensures ConvertAll(From16To32(strict), 1, Encoded(In16(), xs), ConversionOK) ==
            Outcome(ConversionOK, |Encoded(In16(), xs)|, xs)
    ensures ConvertAll(From16To8(strict), 4, Encoded(In16(), xs), ConversionOK) ==
            Outcome(ConversionOK, |Encoded(In16(), xs)|, Encoded(In8(), xs))
    ensures ConvertAll(From8To16(strict), 2, Encoded(In8(), xs), ConversionOK) ==
            Outcome(ConversionOK, |Encoded(In8(), xs)|, Encoded(In16(), xs))
  {
    EncodedAlone(xs);
    Transcode8(strict);
    Transcode16(strict);
    Transcode32(strict);
    TextConverts(From32To8(strict), 4, In32(), In8(), xs, ConversionOK);
    TextConverts(From32To16(strict), 2, In32(), In16(), xs, ConversionOK);
    TextConverts(From8To32(strict), 1, In8(), In32(), xs, ConversionOK);
    TextConverts(From16To32(strict), 1, In16(), In32(), xs, ConversionOK);
    TextConverts(From16To8(strict), 4, In16(), In8(), xs, ConversionOK);
    TextConverts(From8To16(strict), 2, In8(), In16(), xs, ConversionOK);
  }

  // ----- What strict conversions take

  lemma OneUnit(src: seq<Unit>)
    requires src != [] && Read16(src, true).Got?
    ensures var x := Read16(src, true).ch;
            Scalar(x) && Read16(src, true).used == |Put16(x)| && Put16(x) <= src && In16()(x) == Put16(x)
  {
  }

  lemma Only16()
    ensures OnlyTranscodes(From16To8(true), 4, In16(), In8()) && Honest(From16To8(true), 4)
    ensures OnlyTranscodes(From16To32(true), 1, In16(), In32()) && Honest(From16To32(true), 1)
  {
    forall src: seq<Unit> | src != [] && Read16(src, true).Got?
      ensures exists x: Code :: Takes(src, From16To8(true)(src, 4), x, In16()(x), In8()(x))
      ensures exists x: Code :: Takes(src, From16To32(true)(src, 1), x, In16()(x), In32()(x))
    {
      var x := Read16(src, true).ch;
      OneUnit(src);
      assert Takes(src, From16To8(true)(src, 4), x, In16()(x), In8()(x));
      assert Takes(src, From16To32(true)(src, 1), x, In16()(x), In32()(x));
    }
  }

  lemma Only32()
    ensures OnlyTranscodes(From32To8(true), 4, In32(), In8()) && Honest(From32To8(true), 4)
    ensures OnlyTranscodes(From32To16(true), 2, In32(), In16()) && Honest(From32To16(true), 2)
  {
    forall src: seq<Code> | src != []
      ensures Step32to8(src, 4, true).Emit? && !Step32to8(src, 4, true).bad ==>
                exists x: Code :: Takes(src, From32To8(true)(src, 4), x, In32()(x), In8()(x))
    {
      if Scalar(src[0]) {
        assert Takes(src, From32To8(true)(src, 4), src[0], In32()(src[0]), In8()(src[0]));
      }
    }
    forall src: seq<Code> | src != []
      ensures Step32to16(src, 2, true).Emit? && !Step32to16(src, 2, true).bad ==>
                exists x: Code :: Takes(src, From32To16(true)(src, 2), x, In32()(x), In16()(x))
    {
      if Scalar(src[0]) {
        assert Takes(src, From32To16(true)(src, 2), src[0], In32()(src[0]), In16()(src[0]));
      }
    }
  }

  /** From UTF-16 and UTF-32, strict conversions succeed exactly on encoded text; in
      particular too large a value, although conversion goes on, is reported. */
  lemma StrictExact(us: seq<Unit>, cs: seq<Code>)
    ensures ConvertAll(From16To8(true), 4, us, ConversionOK).status == ConversionOK <==> exists xs :: IsText(xs) && us == Encoded(In16(), xs)
    ensures ConvertAll(From16To32(true), 1, us, ConversionOK).status == ConversionOK <==> exists xs :: IsText(xs) && us == Encoded(In16(), xs)
    ensures ConvertAll(From32To8(true), 4, cs, ConversionOK).status == ConversionOK <==> IsText(cs)
    ensures ConvertAll(From32To16(true), 2, cs, ConversionOK).status == ConversionOK <==> IsText(cs)
  {
    Only16();
    Only32();
    Transcode16(true);
    Transcode32(true);
    SuccessExact(From16To8(true), 4, In16(), In8(), us);
    SuccessExact(From16To32(true), 1, In16(), In32(), us);
    SuccessExact(From32To8(true), 4, In32(), In8(), cs);
    SuccessExact(From32To16(true), 2, In32(), In16(), cs);
    EncodedAlone(cs);
    forall xs | cs == Encoded(In32(), xs)
      ensures xs == cs
    {
      EncodedAlone(xs);
    }
  }

  // ----- Bytes

  /** A byte string made of characters that satisfy `ok`. */
  ghost predicate MadeOf(ok: seq<Byte> -> bool, src: seq<Byte>)
    decreases |src|
  {
    src == [] ||
    var n := Trailing(src[0]) + 1;
    n <= |src| && ok(src[..n]) && MadeOf(ok, src[n..])
  }

  /** From UTF-8 a conversion, strict or not, succeeds exactly if `isLegalUTF8` takes
      every character; what comes out is text. */
  lemma {:induction false} BytesExact(src: seq<Byte>, strict: bool)
    ensures var o := ConvertAll(From8To32(strict), 1, src, ConversionOK);
            && (o.status == ConversionOK <==> MadeOf(IsLegal, src))
            && (o.status == ConversionOK ==> o.used == |src|)
            && IsText(o.out)
    decreases |src|
  {
    if src != [] {
      ReadIsScalar(src);
      var n := Trailing(src[0]) + 1;
      if Read8(src).Got? {
        BytesExact(src[n..], strict);
      }
    }
  }

  /** A byte string comes back unchanged from UTF-32 exactly if every character is
      well-formed; the loosely accepted ones do not come back. */
  lemma {:induction false} BytesReturn(src: seq<Byte>)
    ensures var o := ConvertAll(From8To32(true), 1, src, ConversionOK);
            o.status == ConversionOK && Encoded(In8(), o.out) == src <==> MadeOf(WellFormed, src)
    decreases |src|
  {
    if src != [] {
      ReadIsScalar(src);
      var n := Trailing(src[0]) + 1;
      if Read8(src).Got? {
        BytesReturn(src[n..]);
        OneReturns(src, n);
      } else if n <= |src| {
        LegalExact(src[..n]);
      }
    }
  }

  lemma OneReads(src: seq<Byte>, n: nat)
    requires src != [] && n == Trailing(src[0]) + 1 && Read8(src).Got? && Scalar(Read8(src).ch)
    ensures ConvertAll(From8To32(true), 1, src, ConversionOK) ==
            ConvertAll(From8To32(true), 1, src[n..], ConversionOK).After(n, [Read8(src).ch])
  {
    assert From8To32(true)(src, 1) == Emit(n, [Read8(src).ch], false);
  }

  lemma OneReturns(src: seq<Byte>, n: nat)
    requires src != [] && n == Trailing(src[0]) + 1 && Read8(src).Got? && Scalar(Read8(src).ch)
    ensures var o, rest := ConvertAll(From8To32(true), 1, src, ConversionOK), ConvertAll(From8To32(true), 1, src[n..], ConversionOK);
            && o.status == rest.status
            && (Encoded(In8(), o.out) == src <==> WellFormed(src[..n]) && Encoded(In8(), rest.out) == src[n..])
  {
    OneReads(src, n);
    OneBack(src, n, Read8(src).ch, ConvertAll(From8To32(true), 1, src[n..], ConversionOK).out);
  }

  lemma OneBack(src: seq<Byte>, n: nat, ch: Code, out: seq<Code>)
    requires src != [] && n <= |src| && Read8(src) == Got(n, ch) && Scalar(ch)
    ensures Encoded(In8(), [ch] + out) == src <==> WellFormed(src[..n]) && Encoded(In8(), out) == src[n..]
  {
    assert ([ch] + out)[1..] == out;
    assert src == src[..n] + src[n..];
    FirstReturns(src[..n], src[n..], ch, Encoded(In8(), out));
  }

  lemma FirstReturns(c: seq<Byte>, rest: seq<Byte>, ch: Code, back: seq<Byte>)
    requires c != [] && |c| == Trailing(c[0]) + 1 && IsLegal(c) && ch == Value(c) && Scalar(ch)
    ensures Put8(ch) + back == c + rest <==> WellFormed(c) && back == rest
  {
    LegalExact(c);
    Put8Reads(ch);
    if WellFormed(c) {
      WellFormedIsPut(c);
      assert (c + back)[|c|..] == back && (c + rest)[|c|..] == rest;
    } else {
      var text := Put8(ch) + back;
      assert text[0] == Put8(ch)[0] && text[..|Put8(ch)|] == Put8(ch);
      assert (c + rest)[0] == c[0] && (c + rest)[..|c|] == c;
    }
  }

  /** Well-formed bytes are exactly encoded text. */
  lemma WellFormedIsText(src: seq<Byte>)
    ensures MadeOf(WellFormed, src) <==> exists xs :: IsText(xs) && src == Encoded(In8(), xs)
  {
    BytesReturn(src);
    var o := ConvertAll(From8To32(true), 1, src, ConversionOK);
    BytesExact(src, true);
    if xs :| IsText(xs) && src == Encoded(In8(), xs) {
      TextSurvives(xs, true);
    }
  }

  /** Converting UTF-8 to UTF-16 is the same as going through UTF-32: same result,
      same place in the source, same units; the second half never fails. */
  lemma {:induction false} ThroughUtf32(src: seq<Byte>, strict: bool)
    ensures var direct := ConvertAll(From8To16(strict), 2, src, ConversionOK);
            var first := ConvertAll(From8To32(strict), 1, src, ConversionOK);
            && direct == Outcome(first.status, first.used, direct.out)
            && ConvertAll(From32To16(strict), 2, first.out, ConversionOK) == Outcome(ConversionOK, |first.out|, direct.out)
    decreases |src|
  {
    if src != [] && Read8(src).Got? {
      ReadIsScalar(src);
      var n, ch := Read8(src).used, Read8(src).ch;
      ThroughUtf32(src[n..], strict);
      var o := ConvertAll(From8To32(strict), 1, src[n..], ConversionOK);
      assert From8To32(strict)(src, 1) == Emit(n, [ch], false);
      assert ([ch] + o.out)[1..] == o.out;
      assert From32To16(strict)([ch] + o.out, 2) == Emit(1, Put16(ch), false);
    }
  }

  // ----- Targets in pieces

  /** Splitting the target of a conversion from UTF-8 to UTF-16 into buffers of at
      least two units, and going on after each, makes no difference. */
  lemma SplitTarget(src: seq<Byte>, strict: bool, rooms: seq<nat>, room: nat)
    requires 2 * |src| <= room && |src| < |rooms| && forall i :: 0 <= i < |rooms| ==> rooms[i] >= 2
    ensures Resume(From8To16(strict), src, rooms) == Convert(From8To16(strict), src, room, ConversionOK)
  {
    AllRoomy(strict);
    AllResumable(strict);
    ResumeIsWhole(From8To16(strict), 2, src, rooms);
    AmpleRoom(From8To16(strict), 2, src, room, ConversionOK);
  }
}
