/** How a conversion ends and what it has yielded by then, told by the source alone. */
module UtfOutcomes {
  import opened Machine
  import opened UtfCodec
  import opened Conversions
  import opened UtfSteps
  import opened UtfTexts
  import opened UtfSplits

  // ----- From UTF-8

  /** How many of the highest bits are set. */
  function Ones(b: Byte): nat
    decreases b as int
  {
    if b < 0x80 then 0 else 1 + Ones(2 * (b as int) - 0x100)
  }

  /** How many bytes a character that begins so has: as many as the first byte has
      leading ones, or one; never more than six. */
  function Announced(b: Byte): (n: nat)
    ensures n > 0
  {
    var n := Ones(b);
    if n <= 1 then 1 else if n <= 6 then n else 6
  }

  lemma OnesFollow(b: Byte)
    requires b >= 0xC0
    ensures Ones(b) == 2 + Ones(4 * (b as int) - 0x300)
  {
    var c: Byte := 2 * (b as int) - 0x100;
    assert Ones(b) == 1 + Ones(c);
    assert Ones(c) == 1 + Ones(2 * (c as int) - 0x100);
  }

  /** The table holds just that. */
  lemma TableAnnounces(b: Byte)
    ensures Announced(b) == Trailing(b) + 1
  {
    if b < 0xC0 {
      assert Ones(b) <= 1 + Ones(if b < 0x80 then 0 else 2 * (b as int) - 0x100);
    } else {
      OnesFollow(b);
      var c: Byte := 4 * (b as int) - 0x300;
      if 0x80 <= c < 0xC0 {
        assert Ones(c) == 1 + Ones(2 * (c as int) - 0x100);
      } else if c >= 0xC0 {
        OnesFollow(c);
        var d: Byte := 4 * (c as int) - 0x300;
        if 0x80 <= d < 0xC0 {
          assert Ones(d) == 1 + Ones(2 * (d as int) - 0x100);
        } else if d >= 0xC0 {
          OnesFollow(d);
        }
      }
    }
  }

  predicate Acceptable(c: seq<Byte>)
  {
    WellFormed(c) || Loose(c)
  }

  /** The value of the bytes by their places; a loose second byte counts below zero. */
  function Meant(c: seq<Byte>): (ch: Code)
    requires Acceptable(c)
  {
    if |c| == 1 then c[0] as int
    else if |c| == 2 then 64 * (c[0] as int - 0xC0) + (c[1] as int - 0x80)
    else if |c| == 3 then 4096 * (c[0] as int - 0xE0) + 64 * (c[1] as int - 0x80) + (c[2] as int - 0x80)
    else 262144 * (c[0] as int - 0xF0) + 4096 * (c[1] as int - 0x80) + 64 * (c[2] as int - 0x80) + (c[3] as int - 0x80)
  }

  lemma MeantIsValue(c: seq<Byte>)
    requires Acceptable(c)
    ensures 1 <= |c| <= 4 && Meant(c) == Value(c)
  {
    SumBytes(c);
  }

  /** Bytes made of acceptable characters, and the values of those. */
  predicate Accepted(s: seq<Byte>)
    decreases |s|
  {
    s == [] || (var n := Announced(s[0]); n <= |s| && Acceptable(s[..n]) && Accepted(s[n..]))
  }

  function Values8(s: seq<Byte>): seq<Code>
    requires Accepted(s)
    decreases |s|
  {
    if s == [] then [] else var n := Announced(s[0]); [Meant(s[..n])] + Values8(s[n..])
  }

  /** A conversion from UTF-8 ends in success at the end; for lack of source where fewer
      bytes are left than the next one announces; and as illegal where they are all
      there and not acceptable. What comes before is. */
  predicate Ends8(src: seq<Byte>, status: Status, used: nat)
  {
    && used <= |src| && Accepted(src[..used])
    && (status == ConversionOK <==> used == |src|)
    && (status == SourceExhausted <==> used < |src| && |src| - used < Announced(src[used]))
    && (status == SourceIllegal <==>
          && used < |src| && Announced(src[used]) <= |src| - used
          && !Acceptable(src[used..used + Announced(src[used])]))
  }

  lemma SliceShift<T>(s: seq<T>, n: nat, used: nat)
    requires n + used <= |s|
    ensures s[..n + used][n..] == s[n..][..used] && s[..n + used][..n] == s[..n]
    ensures n + used < |s| ==> s[n..][used] == s[n + used]
    ensures n + used + 1 < |s| ==> s[n..][used + 1] == s[n + used + 1]
  {
  }

  lemma SliceWithin<T>(s: seq<T>, n: nat, a: nat, b: nat)
    requires a <= b && n + b <= |s|
    ensures s[n..][a..b] == s[n + a..n + b]
  {
  }

  lemma Ends8Later(src: seq<Byte>, n: nat, status: Status, used: nat)
    requires src != [] && n == Announced(src[0]) && n <= |src| && Acceptable(src[..n]) && Ends8(src[n..], status, used)
    ensures Ends8(src, status, n + used) && Values8(src[..n + used]) == [Meant(src[..n])] + Values8(src[n..][..used])
  {
    SliceShift(src, n, used);
    if used < |src[n..]| && Announced(src[n..][used]) <= |src[n..]| - used {
      SliceWithin(src, n, used, used + Announced(src[n + used]));
    }
  }

  /** One step, told by the source. */
  lemma Step8Told(src: seq<Byte>, strict: bool)
    requires src != []
    ensures var n, s := Announced(src[0]), From8To32(strict)(src, 1);
            s == if n > |src| then Halt(SourceExhausted)
                 else if !Acceptable(src[..n]) then Halt(SourceIllegal)
                 else Emit(n, [Meant(src[..n])], false)
  {
    var n := Announced(src[0]);
    TableAnnounces(src[0]);
    if n <= |src| {
      LegalExact(src[..n]);
      if Acceptable(src[..n]) {
        MeantIsValue(src[..n]);
        ReadIsScalar(src);
      }
    }
  }

  lemma Ends8Here(src: seq<Byte>, status: Status)
    requires src != []
    requires var n := Announced(src[0]);
             if n > |src| then status == SourceExhausted else !Acceptable(src[..n]) && status == SourceIllegal
    ensures Ends8(src, status, 0) && Values8(src[..0]) == []
  {
    var n := Announced(src[0]);
    assert n <= |src| ==> src[0..0 + n] == src[..n];
  }

  predicate Told8(src: seq<Byte>, o: Outcome<Code>)
  {
    Ends8(src, o.status, o.used) && o.out == Values8(src[..o.used])
  }

  lemma Told8Later(src: seq<Byte>, n: nat, o: Outcome<Code>)
    requires src != [] && n == Announced(src[0]) && n <= |src| && Acceptable(src[..n]) && Told8(src[n..], o)
    ensures Told8(src, o.After(n, [Meant(src[..n])]))
  {
    Ends8Later(src, n, o.status, o.used);
  }

  lemma Told8Here(src: seq<Byte>, status: Status)
    requires src != []
    requires var n := Announced(src[0]);
             if n > |src| then status == SourceExhausted else !Acceptable(src[..n]) && status == SourceIllegal
    ensures Told8(src, Outcome(status, 0, []))
  {
    Ends8Here(src, status);
  }

  lemma {:induction false} From8To32Ends(src: seq<Byte>, strict: bool)
    ensures Told8(src, ConvertAll(From8To32(strict), 1, src, ConversionOK))
    decreases |src|
  {
    if src != [] {
      var n, s := Announced(src[0]), From8To32(strict)(src, 1);
      Step8Told(src, strict);
      if s.Halt? {
        Told8Here(src, s.status);
      } else {
        From8To32Ends(src[n..], strict);
        Told8Later(src, n, ConvertAll(From8To32(strict), 1, src[n..], ConversionOK));
      }
    }
  }

  /** How both conversions from UTF-8 end, strict or not. */
  lemma From8Ends(src: seq<Byte>, strict: bool)
    ensures var o := ConvertAll(From8To32(strict), 1, src, ConversionOK);
            Ends8(src, o.status, o.used) && o.out == Values8(src[..o.used])
    ensures var o := ConvertAll(From8To16(strict), 2, src, ConversionOK);
            Ends8(src, o.status, o.used) && o.out == Encoded(In16(), Values8(src[..o.used]))
  {
    From8To32Ends(src, strict);
    ThroughUtf32(src, strict);
    BytesExact(src, strict);
    TextSurvives(ConvertAll(From8To32(strict), 1, src, ConversionOK).out, strict);
  }

  /** The first byte of a character of two: not enough, rather than wrong. */
  lemma FirstByteAlone(strict: bool)
    ensures ConvertAll(From8To16(strict), 2, [0xC3], ConversionOK) == Outcome(SourceExhausted, 0, [])
    ensures ConvertAll(From8To16(strict), 2, [0xC3, 0x41], ConversionOK) == Outcome(SourceIllegal, 0, [])
  {
    assert Ones(0xC3) == 2;
    From8Ends([0xC3], strict);
    From8Ends([0xC3, 0x41], strict);
    assert [0xC3, 0x41][0..2] == [0xC3, 0x41];
    assert [0xC3, 0x41][..2] == [0xC3, 0x41] && [0xC3, 0x41][..0] == [] && [0xC3][..0] == [];
    assert !Acceptable([0xC3, 0x41]);
  }

  // ----- From UTF-16

  /** The values of units, pairs of halves taken together. */
  function Values16(s: seq<Unit>): seq<Code>
  {
    if s == [] then []
    else if |s| >= 2 && HighHalf(s[0]) && LowHalf(s[1]) then [Pair(s[0], s[1])] + Values16(s[2..])
    else [s[0]] + Values16(s[1..])
  }

  /** A unit that cannot stand where it does. */
  predicate Misplaced(src: seq<Unit>, i: nat)
    requires i < |src|
  {
    LowHalf(src[i]) || (HighHalf(src[i]) && i + 1 < |src| && !LowHalf(src[i + 1]))
  }

  /** A conversion from UTF-16 ends in success at the end; for lack of source at a high
      half that is the last unit; and if strict as illegal at a unit that is misplaced.
      What comes before is text if the conversion is strict. */
  predicate Ends16(src: seq<Unit>, strict: bool, status: Status, used: nat)
  {
    && used <= |src|
    && (status == ConversionOK <==> used == |src|)
    && (status == SourceExhausted <==> used + 1 == |src| && HighHalf(src[used]))
    && (status == SourceIllegal <==> strict && used < |src| && Misplaced(src, used))
    && (used == |src| > 0 ==> !HighHalf(src[used - 1]))
    && (strict ==> IsText(Values16(src[..used])))
  }

  lemma Ends16Later(src: seq<Unit>, strict: bool, status: Status, used: nat)
    requires src != [] && Read16(src, strict).Got?
    requires Ends16(src[Read16(src, strict).used..], strict, status, used)
    ensures var r := Read16(src, strict);
            && Ends16(src, strict, status, r.used + used)
            && Values16(src[..r.used + used]) == [r.ch] + Values16(src[r.used..][..used])
  {
    var r := Read16(src, strict);
    var n, s, t := r.used, src[..r.used + used], src[r.used..];
    SliceShift(src, n, used);
    if n == 1 && used == 0 {
      assert s == [src[0]];
      assert Values16(s) == [src[0]] + Values16(s[1..]);
    }
  }

  predicate Told16(src: seq<Unit>, strict: bool, o: Outcome<Code>)
  {
    Ends16(src, strict, o.status, o.used) && o.out == Values16(src[..o.used])
  }

  lemma Told16Later(src: seq<Unit>, strict: bool, o: Outcome<Code>)
    requires src != [] && Read16(src, strict).Got? && Told16(src[Read16(src, strict).used..], strict, o)
    ensures Told16(src, strict, o.After(Read16(src, strict).used, [Read16(src, strict).ch]))
  {
    Ends16Later(src, strict, o.status, o.used);
  }

  lemma Told16Here(src: seq<Unit>, strict: bool)
    requires src != [] && !Read16(src, strict).Got?
    ensures Told16(src, strict, Outcome(if Read16(src, strict).Missing? then SourceExhausted else SourceIllegal, 0, []))
  {
    assert Values16(src[..0]) == [];
  }

  lemma {:induction false} From16To32Ends(src: seq<Unit>, strict: bool)
    ensures Told16(src, strict, ConvertAll(From16To32(strict), 1, src, ConversionOK))
    decreases |src|
  {
    if src != [] {
      if Read16(src, strict).Got? {
        var n := Read16(src, strict).used;
        From16To32Ends(src[n..], strict);
        Told16Later(src, strict, ConvertAll(From16To32(strict), 1, src[n..], ConversionOK));
      } else {
        Told16Here(src, strict);
      }
    }
  }

  /** To UTF-8 a conversion ends as it does to UTF-32, with the same values. */
  lemma {:induction false} SameTo8(src: seq<Unit>, strict: bool)
    ensures var o := ConvertAll(From16To32(strict), 1, src, ConversionOK);
            ConvertAll(From16To8(strict), 4, src, ConversionOK) == Outcome(o.status, o.used, Encoded(In8(), o.out))
    decreases |src|
  {
    if src != [] && Read16(src, strict).Got? {
      var n, ch := Read16(src, strict).used, Read16(src, strict).ch;
      SameTo8(src[n..], strict);
      EncodedCons(In8(), ch, ConvertAll(From16To32(strict), 1, src[n..], ConversionOK).out);
      assert From16To8(strict)(src, 4) == Emit(n, Put8(ch), false);
      assert From16To32(strict)(src, 1) == Emit(n, [ch], false);
    }
  }

  lemma EncodedCons<S>(encode: Encoding<S>, x: Code, xs: seq<Code>)
    ensures Encoded(encode, [x] + xs) == encode(x) + Encoded(encode, xs)
  {
    assert ([x] + xs)[1..] == xs;
  }

  /** The values are those of the units: written as UTF-16 they are the units again. */
  lemma {:induction false} Values16Write(s: seq<Unit>)
    ensures Encoded(In16(), Values16(s)) == s
    decreases |s|
  {
    if s != [] {
      if |s| >= 2 && HighHalf(s[0]) && LowHalf(s[1]) {
        Values16Write(s[2..]);
        EncodedCons(In16(), Pair(s[0], s[1]), Values16(s[2..]));
        assert s == [s[0], s[1]] + s[2..];
      } else {
        Values16Write(s[1..]);
        EncodedCons(In16(), s[0], Values16(s[1..]));
        assert s == [s[0]] + s[1..];
      }
    }
  }

  /** How both conversions from UTF-16 end, strict or not. */
  lemma From16Ends(src: seq<Unit>, strict: bool)
    ensures var o := ConvertAll(From16To32(strict), 1, src, ConversionOK);
            && Ends16(src, strict, o.status, o.used)
            && o.out == Values16(src[..o.used]) && Encoded(In16(), o.out) == src[..o.used]
    ensures var o := ConvertAll(From16To8(strict), 4, src, ConversionOK);
            Ends16(src, strict, o.status, o.used) && o.out == Encoded(In8(), Values16(src[..o.used]))
  {
    From16To32Ends(src, strict);
    SameTo8(src, strict);
    Values16Write(src[..ConvertAll(From16To32(strict), 1, src, ConversionOK).used]);
  }

  // ----- From UTF-32

  /** What UTF-8 shows of a value that is no scalar: a surrogate by three bytes that add
      up to it, one that is too large as a replacement. */
  lemma Put8Others(x: Code)
    ensures x > 0x10FFFF ==> Put8(x) == Put8(0xFFFD)
    ensures Surrogate(x) ==> |Put8(x)| == 3 && Value(Put8(x)) == x
  {
    SumBytes(Put8(x));
  }

  /** What UTF-16 shows of any value. */
  function Shown16(strict: bool): Encoding<Unit>
  {
    (ch: Code) => if Scalar(ch) then Put16(ch) else if strict then [] else [0xFFFD]
  }

  /** Each value that does not stop the converter yields what the encoding shows of it. */
  ghost predicate Shows<U(!new)>(step: Stepper<Code, U>, k: nat, p: Profile, b: Encoding<U>)
  {
    forall src {:trigger step(src, k)} :: src != [] && !p.stops(src[0]) ==> step(src, k).Emit? && step(src, k).units == b(src[0])
  }

  lemma ShowsBoth(strict: bool)
    ensures Shows(From32To8(strict), 4, Profile8(strict), In8())
    ensures Shows(From32To16(strict), 2, Profile16(strict), Shown16(strict))
  {
  }

  lemma {:induction false} From32Out<U(!new)>(step: Stepper<Code, U>, k: nat, p: Profile, b: Encoding<U>, cs: seq<Code>, status: Status)
    requires Steady(step, k, p)
    requires Shows(step, k, p, b)
    ensures var o := ConvertAll(step, k, cs, status);
            o.used <= |cs| && o.out == Encoded(b, cs[..o.used])
    decreases |cs|
  {
    if cs != [] {
      assert StepFits(step, k, p, cs, k);
      if !p.stops(cs[0]) {
        var next := Noted(status, p.notes(cs[0]));
        From32Out(step, k, p, b, cs[1..], next);
        var o := ConvertAll(step, k, cs[1..], next);
        assert cs[..o.used + 1] == [cs[0]] + cs[1..][..o.used];
        EncodedCons(b, cs[0], cs[1..][..o.used]);
      }
    }
  }

  /** Whether a value is beyond the last plane. */
  ghost predicate Overlarge(cs: seq<Code>)
  {
    exists i :: 0 <= i < |cs| && cs[i] > 0x10FFFF
  }

  /** Where a conversion from UTF-32 ends: at the first surrogate if strict. */
  ghost function End32(cs: seq<Code>, strict: bool): (n: nat)
    ensures n <= |cs|
  {
    if strict then First((ch: Code) => 0xD800 <= ch <= 0xDFFF, cs) else |cs|
  }

  lemma EndIsStop(cs: seq<Code>, strict: bool)
    ensures First(Stops(strict), cs) == End32(cs, strict)
  {
    FirstIs(Stops(strict), cs, End32(cs, strict));
  }

  lemma OverlargeNoted(cs: seq<Code>, notes: Code -> bool, told: bool)
    requires forall x :: notes(x) <==> told && x > 0x10FFFF
    ensures UtfSplits.None(notes, cs) <==> !(told && Overlarge(cs))
  {
  }

  /** To UTF-8: a value that is too large shows as a replacement and is told of. */
  lemma From32To8Ends(cs: seq<Code>, strict: bool)
    ensures var n := End32(cs, strict);
            ConvertAll(From32To8(strict), 4, cs, ConversionOK) ==
            Outcome(if n < |cs| || Overlarge(cs) then SourceIllegal else ConversionOK, n, Encoded(In8(), cs[..n]))
  {
    Profiled8(strict);
    AllOutcome(From32To8(strict), 4, Profile8(strict), cs, ConversionOK);
    ShowsBoth(strict);
    From32Out(From32To8(strict), 4, Profile8(strict), In8(), cs, ConversionOK);
    EndIsStop(cs, strict);
    OverlargeNoted(cs, Profile8(strict).notes, true);
  }

  /** To UTF-16: it shows not at all and is told of if strict, else as a replacement
      that is not. */
  lemma From32To16Ends(cs: seq<Code>, strict: bool)
    ensures var n := End32(cs, strict);
            ConvertAll(From32To16(strict), 2, cs, ConversionOK) ==
            Outcome(if n < |cs| || (strict && Overlarge(cs)) then SourceIllegal else ConversionOK, n, Encoded(Shown16(strict), cs[..n]))
  {
    Profiled16(strict);
    AllOutcome(From32To16(strict), 2, Profile16(strict), cs, ConversionOK);
    ShowsBoth(strict);
    From32Out(From32To16(strict), 2, Profile16(strict), Shown16(strict), cs, ConversionOK);
    EndIsStop(cs, strict);
    OverlargeNoted(cs, Profile16(strict).notes, strict);
  }

  // ----- In a small target

  /** Only a step that has nowhere to put its units stops for lack of room. */
  ghost predicate Tight<S(!new), U(!new)>(step: Stepper<S, U>, k: nat)
  {
    forall src, room: nat {:trigger step(src, room)} :: src != [] && step(src, room) == Halt(TargetExhausted) ==>
      step(src, k).Emit? && |step(src, k).units| > room
  }

  lemma AllTight(strict: bool)
    ensures Tight(From8To16(strict), 2) && Tight(From8To32(strict), 1)
    ensures Tight(From16To8(strict), 4) && Tight(From16To32(strict), 1)
  {
    forall src: seq<Byte> | src != []
      ensures Read8(src).Got? ==> Scalar(Read8(src).ch)
    {
      ReadIsScalar(src);
    }
  }

  /** A target runs out exactly if the whole does not fit. */
  lemma {:induction false} RoomExact<S(!new), U(!new)>(step: Stepper<S, U>, k: nat, src: seq<S>, room: nat)
    requires Resumable(step, k) && Tight(step, k)
    ensures var o, all := Convert(step, src, room, ConversionOK), ConvertAll(step, k, src, ConversionOK);
            && |o.out| <= room && o.out <= all.out
            && (o.status == TargetExhausted <==> |all.out| > room)
            && (o.status != TargetExhausted ==> o == all)
    decreases |src|
  {
    if src != [] {
      var s := step(src, room);
      assert s == step(src, k) || s == Halt(TargetExhausted);
      if s.Emit? {
        assert Fits(src, room, s) && !s.bad;
        RoomExact(step, k, src[s.used..], room - |s.units|);
      } else if s == Halt(TargetExhausted) {
        assert step(src, k).Emit? && |step(src, k).units| > room;
      }
    }
  }

  /** So it is with the four conversions that note no errors. */
  lemma TargetRunsOut(bytes: seq<Byte>, units: seq<Unit>, strict: bool, room: nat)
    ensures Convert(From8To16(strict), bytes, room, ConversionOK).status == TargetExhausted <==>
            |ConvertAll(From8To16(strict), 2, bytes, ConversionOK).out| > room
    ensures Convert(From8To32(strict), bytes, room, ConversionOK).status == TargetExhausted <==>
            |ConvertAll(From8To32(strict), 1, bytes, ConversionOK).out| > room
    ensures Convert(From16To8(strict), units, room, ConversionOK).status == TargetExhausted <==>
            |ConvertAll(From16To8(strict), 4, units, ConversionOK).out| > room
    ensures Convert(From16To32(strict), units, room, ConversionOK).status == TargetExhausted <==>
            |ConvertAll(From16To32(strict), 1, units, ConversionOK).out| > room
  {
    AllResumable(strict);
    AllTight(strict);
    RoomExact(From8To16(strict), 2, bytes, room);
    RoomExact(From8To32(strict), 1, bytes, room);
    RoomExact(From16To8(strict), 4, units, room);
    RoomExact(From16To32(strict), 1, units, room);
  }

  lemma {:induction false} StopsAt<U(!new)>(step: Stepper<Code, U>, k: nat, p: Profile, full: bool, cs: seq<Code>, room: nat, status: Status)
    requires Steady(step, k, p)
    requires forall src, room: nat {:trigger step(src, room)} :: src != [] && p.stops(src[0]) ==>
               step(src, room) == Halt(if full && room == 0 then TargetExhausted else SourceIllegal)
    ensures var o := Convert(step, cs, room, status);
            o.used < |cs| && p.stops(cs[o.used]) ==>
              o.status == if full && |o.out| == room then TargetExhausted else SourceIllegal
    decreases |cs|
  {
    if cs != [] {
      assert StepFits(step, k, p, cs, room);
      var s := step(cs, room);
      if s.Emit? {
        StopsAt(step, k, p, full, cs[1..], room - |s.units|, Noted(status, s.bad));
      }
    }
  }

  /** A surrogate that stops a strict conversion from UTF-32 does so in any target;
      but on the way to UTF-16 a full target is told of first. */
  lemma StopsInAnyRoom(cs: seq<Code>, room: nat)
    ensures var o := Convert(From32To8(true), cs, room, ConversionOK);
            o.used < |cs| && Surrogate(cs[o.used]) ==> o.status == SourceIllegal
    ensures var o := Convert(From32To16(true), cs, room, ConversionOK);
            o.used < |cs| && Surrogate(cs[o.used]) ==> o.status == if |o.out| == room then TargetExhausted else SourceIllegal
  {
    Profiled8(true);
    Profiled16(true);
    StopsAt(From32To8(true), 4, Profile8(true), false, cs, room, ConversionOK);
    StopsAt(From32To16(true), 2, Profile16(true), true, cs, room, ConversionOK);
  }
}
