/** The six converters, as loops that write into a target buffer, and the conversion
    of a single character on top of one of them.
 */
module UtfConverters {
  import opened Machine
  import opened Bits
  import opened UtfCodec
  import opened Conversions
  import opened UtfSteps

  /** What a call returns: a status, how much of the source it has used, where the
      target goes on, and the buffer then. */
  datatype Call<U> = Call(status: Status, used: nat, next: nat, buffer: seq<U>)

  /** The call with the outcome `o`: the buffer holds what was produced, from `start`
      on, and is otherwise as before. */
  ghost function Returned<U>(o: Outcome<U>, start: nat, before: seq<U>): Call<U>
  {
    if start + |o.out| > |before| then Call(o.status, o.used, start, before)
    else Call(o.status, o.used, start + |o.out|, Laid(before, start, o.out))
  }

  /** What one turn of a converter's loop does: whether it stops, the status so far,
      how much it took and wrote, and the buffer then. */
  datatype Turn<U> = Turn(halt: bool, status: Status, took: nat, wrote: nat, buffer: seq<U>)

  /** The turn that does the step `s`. */
  ghost function Doing<U>(s: Step<U>, status: Status, next: nat, buffer: seq<U>): Turn<U>
  {
    if s.Halt? then Turn(true, s.status, 0, 0, buffer)
    else if next + |s.units| > |buffer| then Turn(true, status, 0, 0, buffer)
    else Turn(false, Noted(status, s.bad), s.used, |s.units|, Laid(buffer, next, s.units))
  }

  /** The outcomes that lie ahead, by what has been used and produced and by the
      status so far. */
  type View<!U> = (nat, seq<U>, Status) -> Outcome<U>

  ghost predicate Views<S, U(!new)>(view: View<U>, step: Stepper<S, U>, src: seq<S>, room: nat)
  {
    forall used: nat, out, status {:trigger Ahead(step, src, room, used, out, status)} ::
      used <= |src| && |out| <= room ==> view(used, out, status) == Ahead(step, src, room, used, out, status)
  }

  ghost function Viewing<S, U>(step: Stepper<S, U>, src: seq<S>, room: nat): View<U>
  {
    (used: nat, out: seq<U>, status: Status) =>
      if used <= |src| && |out| <= room then Ahead(step, src, room, used, out, status) else Outcome(status, 0, [])
  }

  lemma ViewAtStart<S, U(!new)>(step: Stepper<S, U>, src: seq<S>, room: nat)
    ensures Views(Viewing(step, src, room), step, src, room)
    ensures Viewing(step, src, room)(0, [], ConversionOK) == Convert(step, src, room, ConversionOK)
  {
    AheadAtStart(step, src, room);
  }

  /** One turn does not change the outcome that lies ahead; the turn that stops
      arrives at it. */
  lemma Turning<S, U(!new)>(
      view: View<U>, step: Stepper<S, U>, src: seq<S>, start: nat, room: nat, used: nat, out: seq<U>, status: Status,
      before: seq<U>, now: seq<U>, left: nat, next: nat, s: Step<U>, t: Turn<U>)
    requires Views(view, step, src, room)
    requires used < |src| && |out| <= room && start + room <= |before| && now == Laid(before, start, out)
    requires left == room - |out| && next == start + |out|
    requires step(src[used..], left) == s && (s.Emit? ==> Fits(src[used..], left, s)) && t == Doing(s, status, next, now)
    ensures t.halt ==> Call(t.status, used, next, t.buffer) == Returned(view(used, out, status), start, before)
    ensures !t.halt ==> s.Emit? && used + t.took <= |src| && |out + s.units| == |out| + t.wrote <= room
    ensures !t.halt ==> view(used + t.took, out + s.units, t.status) == view(used, out, status)
    ensures !t.halt ==> t.buffer == Laid(before, start, out + s.units)
  {
    var here := Ahead(step, src, room, used, out, status);
    if s.Halt? {
      AheadHalt(step, src, room, used, out, status);
    } else {
      AheadEmit(step, src, room, used, out, status, s);
      assert here == Ahead(step, src, room, used + t.took, out + s.units, t.status);
      LaidMore(before, start, out, s.units);
    }
  }

  /** The loop has come to the end of the source. */
  lemma Arriving<S, U(!new)>(
      view: View<U>, step: Stepper<S, U>, src: seq<S>, start: nat, room: nat, out: seq<U>, status: Status, before: seq<U>, now: seq<U>)
    requires Views(view, step, src, room)
    requires |out| <= room && start + room <= |before| && now == Laid(before, start, out)
    ensures Call(status, |src|, start + |out|, now) == Returned(view(|src|, out, status), start, before)
  {
    AheadAtEnd(step, src, room, out, status);
    assert Ahead(step, src, room, |src|, out, status).status == status;
  }

  // ----- Pieces of the loops

  lemma AllShifts()
    ensures forall x: nat :: Left(x, 6) == 64 * x && Left(x, 10) == 1024 * x
  {
    forall x: nat
      ensures Left(x, 6) == 64 * x && Left(x, 10) == 1024 * x
    {
      Shifts(x);
    }
  }

  /** The drop-through switch that adds up a UTF-8 character. */
  method Gather(source: seq<Byte>, at: nat, extra: nat) returns (ch: nat)
    requires extra <= 3 && at + extra < |source|
    ensures ch == Sum(source[at..at + extra + 1])
  {
    var s := at;
    ch := 0;
    AllShifts();
    if extra >= 3 {
      ch := Left(ch + source[s], 6);
      s := s + 1;
    }
    if extra >= 2 {
      ch := Left(ch + source[s], 6);
      s := s + 1;
    }
    if extra >= 1 {
      ch := Left(ch + source[s], 6);
      s := s + 1;
    }
    ch := ch + source[s];
    SumBytes(source[at..at + extra + 1]);
  }

  /** Reads the character at `at`, as the two converters from UTF-8 do. */
  method ReadChar8(source: seq<Byte>, at: nat) returns (r: Read)
    requires at < |source|
    ensures r == Read8(source[at..])
  {
    var extra := Trailing(source[at]);
    if at + extra >= |source| {
      return Missing;
    }
    assert source[at..at + extra + 1] == source[at..][..extra + 1];
    if !IsLegal(source[at..at + extra + 1]) {
      return Wrong;
    }
    var ch: int := Gather(source, at, extra);
    ch := ch - OFFSETS[extra];
    if !(0 <= ch < 0x1_0000_0000) {
      ch := ch % 0x1_0000_0000;
    }
    r := Got(extra + 1, ch);
  }

  /** Reads the character at `at`, as the two converters from UTF-16 do. */
  method ReadChar16(source: seq<Unit>, at: nat, strict: bool) returns (r: Read)
    requires at < |source|
    ensures r == Read16(source[at..], strict)
  {
    var ch := source[at];
    assert source[at..][0] == ch;
    if HighHalf(ch) {
      if at + 1 < |source| {
        var ch2 := source[at + 1];
        assert source[at..][1] == ch2;
        if LowHalf(ch2) {
          AllShifts();
          return Got(2, Left(ch - 0xD800, 10) + (ch2 as int - 0xDC00) + 0x10000);
        } else if strict {
          return Wrong;
        }
      } else {
        return Missing;
      }
    } else if strict {
      if LowHalf(ch) {
        return Wrong;
      }
    }
    r := Got(1, ch);
  }

  /** The drop-through switch that writes a UTF-8 character from its end; `ch` has
      been replaced if it was too large. */
  method PutBytes(target: array<Byte>, at: nat, ch: Code, count: nat)
    requires ch <= 0x10FFFF && count == |Put8(ch)| && at + count <= target.Length
    modifies target
    ensures target[..] == Laid(old(target[..]), at, Put8(ch))
  {
    WriteBytes(target, at, ch, count);
    var b := Put8(ch);
    assert forall i :: 0 <= i < count ==> target[at + i] == b[i];
    assert target[..] == Laid(old(target[..]), at, b);
  }

  /** Writes the low six bits with their mark, and yields the others. */
  method PutMarked(target: array<Byte>, t: nat, c: nat) returns (rest: nat)
    requires t < target.Length
    modifies target
    ensures target[t] == 0x80 + c % 64 && rest == c / 64
    ensures forall i :: 0 <= i < target.Length && i != t ==> target[i] == old(target[i])
  {
    MarkedByte(c);
    RightShifts(c);
    target[t] := And(Or(c, 0x80), 0xBF);
    rest := Right(c, 6);
  }

  const FIRST_BYTE_MARK: seq<Byte> := [0x00, 0x00, 0xC0, 0xE0, 0xF0]

  /** Writes the first byte of `count`. */
  method PutLead(target: array<Byte>, t: nat, c: nat, count: nat)
    requires t < target.Length && 1 <= count <= 4
    requires c < (if count == 1 then 0x80 else if count == 2 then 0x20 else if count == 3 then 0x10 else 0x08)
    modifies target
    ensures target[t] == FIRST_BYTE_MARK[count] + c
    ensures forall i :: 0 <= i < target.Length && i != t ==> target[i] == old(target[i])
  {
    LeadBytes(c);
    target[t] := Or(c, FIRST_BYTE_MARK[count]);
  }

  /** The switch itself, byte by byte. */
  method WriteBytes(target: array<Byte>, at: nat, ch: Code, count: nat)
    requires ch <= 0x10FFFF && count == |Put8(ch)| && at + count <= target.Length
    modifies target
    ensures forall i :: 0 <= i < count ==> target[at + i] == Put8(ch)[i]
    ensures forall i :: 0 <= i < target.Length && !(at <= i < at + count) ==> target[i] == old(target[i])
  {
    var t: nat, c: nat := at + count, ch;
    if count >= 4 {
      t := t - 1;
      c := PutMarked(target, t, c);
    }
    if count >= 3 {
      t := t - 1;
      c := PutMarked(target, t, c);
    }
    if count >= 2 {
      t := t - 1;
      c := PutMarked(target, t, c);
    }
    t := t - 1;
    PutLead(target, t, c, count);
  }

  /** Bytes needed for a character, with a replacement for one that is too large. */
  function ByteCount(ch: Code): (n: nat)
    ensures n == |Put8(ch)|
  {
    if ch < 0x80 then 1 else if ch < 0x800 then 2 else if ch < 0x10000 then 3 else if ch <= 0x10FFFF then 4 else 3
  }

  /** Writes one element. */
  method PutOne<U>(target: array<U>, at: nat, x: U)
    requires at < target.Length
    modifies target
    ensures target[..] == Laid(old(target[..]), at, [x])
  {
    LaidOne(target[..], at, x);
    target[at] := x;
  }

  /** Writes a surrogate pair. */
  method PutPair(target: array<Unit>, at: nat, ch: Code)
    requires 0xFFFF < ch <= 0x10FFFF && at + 1 < target.Length
    modifies target
    ensures target[..] == Laid(old(target[..]), at, Put16(ch))
  {
    ghost var before := target[..];
    var c := ch - 0x10000;
    LowHalfBits(c);
    RightShifts(c);
    target[at] := Right(c, 10) + 0xD800;
    target[at + 1] := And(c, 0x3FF) + 0xDC00;
    assert target[..] == Laid(before, at, Put16(ch));
  }

  // ----- One turn of each loop

  /** The steppers that the turns follow. */
  ghost predicate Is8to16(step: Stepper<Byte, Unit>, strict: bool)
  {
    forall src, room: nat {:trigger Step8to16(src, room, strict)} :: src != [] ==> step(src, room) == Step8to16(src, room, strict)
  }

  lemma From8To16Is(strict: bool)
    ensures Is8to16(From8To16(strict), strict)
  {
  }

  ghost predicate Is8to32(step: Stepper<Byte, Code>, strict: bool)
  {
    forall src, room: nat {:trigger Step8to32(src, room, strict)} :: src != [] ==> step(src, room) == Step8to32(src, room, strict)
  }

  lemma From8To32Is(strict: bool)
    ensures Is8to32(From8To32(strict), strict)
  {
  }

  ghost predicate Is16to8(step: Stepper<Unit, Byte>, strict: bool)
  {
    forall src, room: nat {:trigger Step16to8(src, room, strict)} :: src != [] ==> step(src, room) == Step16to8(src, room, strict)
  }

  lemma From16To8Is(strict: bool)
    ensures Is16to8(From16To8(strict), strict)
  {
  }

  ghost predicate Is16to32(step: Stepper<Unit, Code>, strict: bool)
  {
    forall src, room: nat {:trigger Step16to32(src, room, strict)} :: src != [] ==> step(src, room) == Step16to32(src, room, strict)
  }

  lemma From16To32Is(strict: bool)
    ensures Is16to32(From16To32(strict), strict)
  {
  }

  ghost predicate Is32to8(step: Stepper<Code, Byte>, strict: bool)
  {
    forall src, room: nat {:trigger Step32to8(src, room, strict)} :: src != [] ==> step(src, room) == Step32to8(src, room, strict)
  }

  lemma From32To8Is(strict: bool)
    ensures Is32to8(From32To8(strict), strict)
  {
  }

  ghost predicate Is32to16(step: Stepper<Code, Unit>, strict: bool)
  {
    forall src, room: nat {:trigger Step32to16(src, room, strict)} :: src != [] ==> step(src, room) == Step32to16(src, room, strict)
  }

  lemma From32To16Is(strict: bool)
    ensures Is32to16(From32To16(strict), strict)
  {
  }

  method Turn8to16(source: seq<Byte>, at: nat, target: array<Unit>, next: nat, end: nat, strict: bool, status: Status, ghost step: Stepper<Byte, Unit>)
    returns (halt: bool, result: Status, took: nat, wrote: nat)
    requires at < |source| && next <= end <= target.Length && Is8to16(step, strict)
    modifies target
    ensures Turn(halt, result, took, wrote, target[..]) == Doing(step(source[at..], end - next), status, next, old(target[..]))
    ensures step(source[at..], end - next).Emit? ==> Fits(source[at..], end - next, step(source[at..], end - next))
  {
    assert step(source[at..], end - next) == Step8to16(source[at..], end - next, strict);
    var r := ReadChar8(source, at);
    if r.Missing? {
      return true, SourceExhausted, 0, 0;
    }
    if r.Wrong? {
      return true, SourceIllegal, 0, 0;
    }
    if next >= end {
      return true, TargetExhausted, 0, 0;
    }
    if r.ch <= 0xFFFF {
      if Surrogate(r.ch) {
        if strict {
          return true, SourceIllegal, 0, 0;
        }
        PutOne(target, next, REPLACEMENT);
      } else {
        PutOne(target, next, r.ch);
      }
      return false, status, r.used, 1;
    }
    if r.ch > 0x10FFFF {
      if strict {
        return true, SourceIllegal, 0, 0;
      }
      PutOne(target, next, REPLACEMENT);
      return false, status, r.used, 1;
    }
    if next + 1 >= end {
      return true, TargetExhausted, 0, 0;
    }
    PutPair(target, next, r.ch);
    return false, status, r.used, 2;
  }

  method Turn8to32(source: seq<Byte>, at: nat, target: array<Code>, next: nat, end: nat, strict: bool, status: Status, ghost step: Stepper<Byte, Code>)
    returns (halt: bool, result: Status, took: nat, wrote: nat)
    requires at < |source| && next <= end <= target.Length && Is8to32(step, strict)
    modifies target
    ensures Turn(halt, result, took, wrote, target[..]) == Doing(step(source[at..], end - next), status, next, old(target[..]))
    ensures step(source[at..], end - next).Emit? ==> Fits(source[at..], end - next, step(source[at..], end - next))
  {
    assert step(source[at..], end - next) == Step8to32(source[at..], end - next, strict);
    var r := ReadChar8(source, at);
    if r.Missing? {
      return true, SourceExhausted, 0, 0;
    }
    if r.Wrong? {
      return true, SourceIllegal, 0, 0;
    }
    if next >= end {
      return true, TargetExhausted, 0, 0;
    }
    if r.ch > 0x10FFFF {
      PutOne(target, next, REPLACEMENT);
      return false, SourceIllegal, r.used, 1;
    }
    if Surrogate(r.ch) {
      if strict {
        return true, SourceIllegal, 0, 0;
      }
      PutOne(target, next, REPLACEMENT);
    } else {
      PutOne(target, next, r.ch);
    }
    return false, status, r.used, 1;
  }

  method Turn16to8(source: seq<Unit>, at: nat, target: array<Byte>, next: nat, end: nat, strict: bool, status: Status, ghost step: Stepper<Unit, Byte>)
    returns (halt: bool, result: Status, took: nat, wrote: nat)
    requires at < |source| && next <= end <= target.Length && Is16to8(step, strict)
    modifies target
    ensures Turn(halt, result, took, wrote, target[..]) == Doing(step(source[at..], end - next), status, next, old(target[..]))
    ensures step(source[at..], end - next).Emit? ==> Fits(source[at..], end - next, step(source[at..], end - next))
  {
    assert step(source[at..], end - next) == Step16to8(source[at..], end - next, strict);
    var r := ReadChar16(source, at, strict);
    if r.Missing? {
      return true, SourceExhausted, 0, 0;
    }
    if r.Wrong? {
      return true, SourceIllegal, 0, 0;
    }
    var count := ByteCount(r.ch);
    if next + count > end {
      return true, TargetExhausted, 0, 0;
    }
    PutBytes(target, next, r.ch, count);
    return false, status, r.used, count;
  }

  method Turn16to32(source: seq<Unit>, at: nat, target: array<Code>, next: nat, end: nat, strict: bool, status: Status, ghost step: Stepper<Unit, Code>)
    returns (halt: bool, result: Status, took: nat, wrote: nat)
    requires at < |source| && next <= end <= target.Length && Is16to32(step, strict)
    modifies target
    ensures Turn(halt, result, took, wrote, target[..]) == Doing(step(source[at..], end - next), status, next, old(target[..]))
    ensures step(source[at..], end - next).Emit? ==> Fits(source[at..], end - next, step(source[at..], end - next))
  {
    assert step(source[at..], end - next) == Step16to32(source[at..], end - next, strict);
    var r := ReadChar16(source, at, strict);
    if r.Missing? {
      return true, SourceExhausted, 0, 0;
    }
    if r.Wrong? {
      return true, SourceIllegal, 0, 0;
    }
    if next >= end {
      return true, TargetExhausted, 0, 0;
    }
    PutOne(target, next, r.ch);
    return false, status, r.used, 1;
  }

  method Turn32to8(source: seq<Code>, at: nat, target: array<Byte>, next: nat, end: nat, strict: bool, status: Status, ghost step: Stepper<Code, Byte>)
    returns (halt: bool, result: Status, took: nat, wrote: nat)
    requires at < |source| && next <= end <= target.Length && Is32to8(step, strict)
    modifies target
    ensures Turn(halt, result, took, wrote, target[..]) == Doing(step(source[at..], end - next), status, next, old(target[..]))
    ensures step(source[at..], end - next).Emit? ==> Fits(source[at..], end - next, step(source[at..], end - next))
  {
    assert step(source[at..], end - next) == Step32to8(source[at..], end - next, strict);
    var ch := source[at];
    assert source[at..][0] == ch;
    if strict && Surrogate(ch) {
      return true, SourceIllegal, 0, 0;
    }
    var count := ByteCount(ch);
    result := status;
    if ch > 0x10FFFF {
      assert Put8(ch) == Put8(REPLACEMENT);
      ch := REPLACEMENT;
      result := SourceIllegal;
    }
    if next + count > end {
      return true, TargetExhausted, 0, 0;
    }
    PutBytes(target, next, ch, count);
    return false, result, 1, count;
  }

  method Turn32to16(source: seq<Code>, at: nat, target: array<Unit>, next: nat, end: nat, strict: bool, status: Status, ghost step: Stepper<Code, Unit>)
    returns (halt: bool, result: Status, took: nat, wrote: nat)
    requires at < |source| && next <= end <= target.Length && Is32to16(step, strict)
    modifies target
    ensures Turn(halt, result, took, wrote, target[..]) == Doing(step(source[at..], end - next), status, next, old(target[..]))
    ensures step(source[at..], end - next).Emit? ==> Fits(source[at..], end - next, step(source[at..], end - next))
  {
    assert step(source[at..], end - next) == Step32to16(source[at..], end - next, strict);
    var ch := source[at];
    assert source[at..][0] == ch;
    if next >= end {
      return true, TargetExhausted, 0, 0;
    }
    if ch <= 0xFFFF {
      if Surrogate(ch) {
        if strict {
          return true, SourceIllegal, 0, 0;
        }
        PutOne(target, next, REPLACEMENT);
      } else {
        PutOne(target, next, ch);
      }
      return false, status, 1, 1;
    }
    if ch > 0x10FFFF {
      if strict {
        LaidNothing(target[..], next);
        return false, SourceIllegal, 1, 0;
      }
      PutOne(target, next, REPLACEMENT);
      return false, status, 1, 1;
    }
    if next + 1 >= end {
      return true, TargetExhausted, 0, 0;
    }
    PutPair(target, next, ch);
    return false, status, 1, 2;
  }

  // ----- The converters

  method ConvertUTF8toUTF16(source: seq<Byte>, target: array<Unit>, start: nat, end: nat, strict: bool)
    returns (status: Status, used: nat, next: nat)
    requires start <= end <= target.Length
    modifies target
    ensures Call(status, used, next, target[..]) == Returned(Convert(From8To16(strict), source, end - start, ConversionOK), start, old(target[..]))
    ensures start <= next <= end
  {
    ghost var step, room := From8To16(strict), end - start;
    ghost var view := Viewing(step, source, room);
    From8To16Is(strict);
    ViewAtStart(step, source, room);
    status, used, next := Loop8to16(source, target, start, end, strict, step, view, Convert(step, source, room, ConversionOK));
  }

  method Loop8to16(
      source: seq<Byte>, target: array<Unit>, start: nat, end: nat, strict: bool, ghost step: Stepper<Byte, Unit>, ghost view: View<Unit>,
      ghost goal: Outcome<Unit>)
    returns (status: Status, used: nat, next: nat)
    requires start <= end <= target.Length && Is8to16(step, strict) && Views(view, step, source, end - start)
    requires view(0, [], ConversionOK) == goal
    modifies target
    ensures Call(status, used, next, target[..]) == Returned(goal, start, old(target[..]))
    ensures start <= next <= end
  {
    ghost var before := target[..];
    ghost var out: seq<Unit> := [];
    status, used, next := ConversionOK, 0, start;
    LaidNothing(before, start);
    while used < |source|
      invariant used <= |source| && next == start + |out| <= end
      invariant view(used, out, status) == goal
      invariant target[..] == Laid(before, start, out)
    {
      var halt, took, wrote;
      halt, status, took, wrote, out := Pass8to16(source, used, target, start, next, end, strict, status, step, view, out, before);
      if halt {
        return;
      }
      used, next := used + took, next + wrote;
    }
    Arriving(view, step, source, start, end - start, out, status, before, target[..]);
  }

  method Pass8to16(
      source: seq<Byte>, used: nat, target: array<Unit>, start: nat, next: nat, end: nat, strict: bool, status: Status,
      ghost step: Stepper<Byte, Unit>, ghost view: View<Unit>, ghost out: seq<Unit>, ghost before: seq<Unit>)
    returns (halt: bool, result: Status, took: nat, wrote: nat, ghost more: seq<Unit>)
    requires used < |source| && next == start + |out| <= end <= target.Length
    requires Is8to16(step, strict) && Views(view, step, source, end - start)
    requires |before| == target.Length && target[..] == Laid(before, start, out)
    modifies target
    ensures halt ==> Call(result, used, next, target[..]) == Returned(view(used, out, status), start, before)
    ensures !halt ==> 0 < took && used + took <= |source| && start + |more| == next + wrote <= end
    ensures !halt ==> view(used + took, more, result) == view(used, out, status) && target[..] == Laid(before, start, more)
  {
    ghost var now, s := target[..], step(source[used..], end - next);
    halt, result, took, wrote := Turn8to16(source, used, target, next, end, strict, status, step);
    Turning(view, step, source, start, end - start, used, out, status, before, now, end - next, next, s,
            Turn(halt, result, took, wrote, target[..]));
    more := if halt then out else out + s.units;
  }

  method ConvertUTF8toUTF32(source: seq<Byte>, target: array<Code>, start: nat, end: nat, strict: bool)
    returns (status: Status, used: nat, next: nat)
    requires start <= end <= target.Length
    modifies target
    ensures Call(status, used, next, target[..]) == Returned(Convert(From8To32(strict), source, end - start, ConversionOK), start, old(target[..]))
    ensures start <= next <= end
  {
    ghost var step, room := From8To32(strict), end - start;
    ghost var view := Viewing(step, source, room);
    From8To32Is(strict);
    ViewAtStart(step, source, room);
    status, used, next := Loop8to32(source, target, start, end, strict, step, view, Convert(step, source, room, ConversionOK));
  }

  method Loop8to32(
      source: seq<Byte>, target: array<Code>, start: nat, end: nat, strict: bool, ghost step: Stepper<Byte, Code>, ghost view: View<Code>,
      ghost goal: Outcome<Code>)
    returns (status: Status, used: nat, next: nat)
    requires start <= end <= target.Length && Is8to32(step, strict) && Views(view, step, source, end - start)
    requires view(0, [], ConversionOK) == goal
    modifies target
    ensures Call(status, used, next, target[..]) == Returned(goal, start, old(target[..]))
    ensures start <= next <= end
  {
    ghost var before := target[..];
    ghost var out: seq<Code> := [];
    status, used, next := ConversionOK, 0, start;
    LaidNothing(before, start);
    while used < |source|
      invariant used <= |source| && next == start + |out| <= end
      invariant view(used, out, status) == goal
      invariant target[..] == Laid(before, start, out)
    {
      var halt, took, wrote;
      halt, status, took, wrote, out := Pass8to32(source, used, target, start, next, end, strict, status, step, view, out, before);
      if halt {
        return;
      }
      used, next := used + took, next + wrote;
    }
    Arriving(view, step, source, start, end - start, out, status, before, target[..]);
  }

  method Pass8to32(
      source: seq<Byte>, used: nat, target: array<Code>, start: nat, next: nat, end: nat, strict: bool, status: Status,
      ghost step: Stepper<Byte, Code>, ghost view: View<Code>, ghost out: seq<Code>, ghost before: seq<Code>)
    returns (halt: bool, result: Status, took: nat, wrote: nat, ghost more: seq<Code>)
    requires used < |source| && next == start + |out| <= end <= target.Length
    requires Is8to32(step, strict) && Views(view, step, source, end - start)
    requires |before| == target.Length && target[..] == Laid(before, start, out)
    modifies target
    ensures halt ==> Call(result, used, next, target[..]) == Returned(view(used, out, status), start, before)
    ensures !halt ==> 0 < took && used + took <= |source| && start + |more| == next + wrote <= end
    ensures !halt ==> view(used + took, more, result) == view(used, out, status) && target[..] == Laid(before, start, more)
  {
    ghost var now, s := target[..], step(source[used..], end - next);
    halt, result, took, wrote := Turn8to32(source, used, target, next, end, strict, status, step);
    Turning(view, step, source, start, end - start, used, out, status, before, now, end - next, next, s,
            Turn(halt, result, took, wrote, target[..]));
    more := if halt then out else out + s.units;
  }

  method ConvertUTF16toUTF8(source: seq<Unit>, target: array<Byte>, start: nat, end: nat, strict: bool)
    returns (status: Status, used: nat, next: nat)
    requires start <= end <= target.Length
    modifies target
    ensures Call(status, used, next, target[..]) == Returned(Convert(From16To8(strict), source, end - start, ConversionOK), start, old(target[..]))
    ensures start <= next <= end
  {
    ghost var step, room := From16To8(strict), end - start;
    ghost var view := Viewing(step, source, room);
    From16To8Is(strict);
    ViewAtStart(step, source, room);
    status, used, next := Loop16to8(source, target, start, end, strict, step, view, Convert(step, source, room, ConversionOK));
  }

  method Loop16to8(
      source: seq<Unit>, target: array<Byte>, start: nat, end: nat, strict: bool, ghost step: Stepper<Unit, Byte>, ghost view: View<Byte>,
      ghost goal: Outcome<Byte>)
    returns (status: Status, used: nat, next: nat)
    requires start <= end <= target.Length && Is16to8(step, strict) && Views(view, step, source, end - start)
    requires view(0, [], ConversionOK) == goal
    modifies target
    ensures Call(status, used, next, target[..]) == Returned(goal, start, old(target[..]))
    ensures start <= next <= end
  {
    ghost var before := target[..];
    ghost var out: seq<Byte> := [];
    status, used, next := ConversionOK, 0, start;
    LaidNothing(before, start);
    while used < |source|
      invariant used <= |source| && next == start + |out| <= end
      invariant view(used, out, status) == goal
      invariant target[..] == Laid(before, start, out)
    {
      var halt, took, wrote;
      halt, status, took, wrote, out := Pass16to8(source, used, target, start, next, end, strict, status, step, view, out, before);
      if halt {
        return;
      }
      used, next := used + took, next + wrote;
    }
    Arriving(view, step, source, start, end - start, out, status, before, target[..]);
  }

  method Pass16to8(
      source: seq<Unit>, used: nat, target: array<Byte>, start: nat, next: nat, end: nat, strict: bool, status: Status,
      ghost step: Stepper<Unit, Byte>, ghost view: View<Byte>, ghost out: seq<Byte>, ghost before: seq<Byte>)
    returns (halt: bool, result: Status, took: nat, wrote: nat, ghost more: seq<Byte>)
    requires used < |source| && next == start + |out| <= end <= target.Length
    requires Is16to8(step, strict) && Views(view, step, source, end - start)
    requires |before| == target.Length && target[..] == Laid(before, start, out)
    modifies target
    ensures halt ==> Call(result, used, next, target[..]) == Returned(view(used, out, status), start, before)
    ensures !halt ==> 0 < took && used + took <= |source| && start + |more| == next + wrote <= end
    ensures !halt ==> view(used + took, more, result) == view(used, out, status) && target[..] == Laid(before, start, more)
  {
    ghost var now, s := target[..], step(source[used..], end - next);
    halt, result, took, wrote := Turn16to8(source, used, target, next, end, strict, status, step);
    Turning(view, step, source, start, end - start, used, out, status, before, now, end - next, next, s,
            Turn(halt, result, took, wrote, target[..]));
    more := if halt then out else out + s.units;
  }

  method ConvertUTF16toUTF32(source: seq<Unit>, target: array<Code>, start: nat, end: nat, strict: bool)
    returns (status: Status, used: nat, next: nat)
    requires start <= end <= target.Length
    modifies target
    ensures Call(status, used, next, target[..]) == Returned(Convert(From16To32(strict), source, end - start, ConversionOK), start, old(target[..]))
    ensures start <= next <= end
  {
    ghost var step, room := From16To32(strict), end - start;
    ghost var view := Viewing(step, source, room);
    From16To32Is(strict);
    ViewAtStart(step, source, room);
    status, used, next := Loop16to32(source, target, start, end, strict, step, view, Convert(step, source, room, ConversionOK));
  }

  method Loop16to32(
      source: seq<Unit>, target: array<Code>, start: nat, end: nat, strict: bool, ghost step: Stepper<Unit, Code>, ghost view: View<Code>,
      ghost goal: Outcome<Code>)
    returns (status: Status, used: nat, next: nat)
    requires start <= end <= target.Length && Is16to32(step, strict) && Views(view, step, source, end - start)
    requires view(0, [], ConversionOK) == goal
    modifies target
    ensures Call(status, used, next, target[..]) == Returned(goal, start, old(target[..]))
    ensures start <= next <= end
  {
    ghost var before := target[..];
    ghost var out: seq<Code> := [];
    status, used, next := ConversionOK, 0, start;
    LaidNothing(before, start);
    while used < |source|
      invariant used <= |source| && next == start + |out| <= end
      invariant view(used, out, status) == goal
      invariant target[..] == Laid(before, start, out)
    {
      var halt, took, wrote;
      halt, status, took, wrote, out := Pass16to32(source, used, target, start, next, end, strict, status, step, view, out, before);
      if halt {
        return;
      }
      used, next := used + took, next + wrote;
    }
    Arriving(view, step, source, start, end - start, out, status, before, target[..]);
  }

  method Pass16to32(
      source: seq<Unit>, used: nat, target: array<Code>, start: nat, next: nat, end: nat, strict: bool, status: Status,
      ghost step: Stepper<Unit, Code>, ghost view: View<Code>, ghost out: seq<Code>, ghost before: seq<Code>)
    returns (halt: bool, result: Status, took: nat, wrote: nat, ghost more: seq<Code>)
    requires used < |source| && next == start + |out| <= end <= target.Length
    requires Is16to32(step, strict) && Views(view, step, source, end - start)
    requires |before| == target.Length && target[..] == Laid(before, start, out)
    modifies target
    ensures halt ==> Call(result, used, next, target[..]) == Returned(view(used, out, status), start, before)
    ensures !halt ==> 0 < took && used + took <= |source| && start + |more| == next + wrote <= end
    ensures !halt ==> view(used + took, more, result) == view(used, out, status) && target[..] == Laid(before, start, more)
  {
    ghost var now, s := target[..], step(source[used..], end - next);
    halt, result, took, wrote := Turn16to32(source, used, target, next, end, strict, status, step);
    Turning(view, step, source, start, end - start, used, out, status, before, now, end - next, next, s,
            Turn(halt, result, took, wrote, target[..]));
    more := if halt then out else out + s.units;
  }

  method ConvertUTF32toUTF8(source: seq<Code>, target: array<Byte>, start: nat, end: nat, strict: bool)
    returns (status: Status, used: nat, next: nat)
    requires start <= end <= target.Length
    modifies target
    ensures Call(status, used, next, target[..]) == Returned(Convert(From32To8(strict), source, end - start, ConversionOK), start, old(target[..]))
    ensures start <= next <= end
  {
    ghost var step, room := From32To8(strict), end - start;
    ghost var view := Viewing(step, source, room);
    From32To8Is(strict);
    ViewAtStart(step, source, room);
    status, used, next := Loop32to8(source, target, start, end, strict, step, view, Convert(step, source, room, ConversionOK));
  }

  method Loop32to8(
      source: seq<Code>, target: array<Byte>, start: nat, end: nat, strict: bool, ghost step: Stepper<Code, Byte>, ghost view: View<Byte>,
      ghost goal: Outcome<Byte>)
    returns (status: Status, used: nat, next: nat)
    requires start <= end <= target.Length && Is32to8(step, strict) && Views(view, step, source, end - start)
    requires view(0, [], ConversionOK) == goal
    modifies target
    ensures Call(status, used, next, target[..]) == Returned(goal, start, old(target[..]))
    ensures start <= next <= end
  {
    ghost var before := target[..];
    ghost var out: seq<Byte> := [];
    status, used, next := ConversionOK, 0, start;
    LaidNothing(before, start);
    while used < |source|
      invariant used <= |source| && next == start + |out| <= end
      invariant view(used, out, status) == goal
      invariant target[..] == Laid(before, start, out)
    {
      var halt, took, wrote;
      halt, status, took, wrote, out := Pass32to8(source, used, target, start, next, end, strict, status, step, view, out, before);
      if halt {
        return;
      }
      used, next := used + took, next + wrote;
    }
    Arriving(view, step, source, start, end - start, out, status, before, target[..]);
  }

  method Pass32to8(
      source: seq<Code>, used: nat, target: array<Byte>, start: nat, next: nat, end: nat, strict: bool, status: Status,
      ghost step: Stepper<Code, Byte>, ghost view: View<Byte>, ghost out: seq<Byte>, ghost before: seq<Byte>)
    returns (halt: bool, result: Status, took: nat, wrote: nat, ghost more: seq<Byte>)
    requires used < |source| && next == start + |out| <= end <= target.Length
    requires Is32to8(step, strict) && Views(view, step, source, end - start)
    requires |before| == target.Length && target[..] == Laid(before, start, out)
    modifies target
    ensures halt ==> Call(result, used, next, target[..]) == Returned(view(used, out, status), start, before)
    ensures !halt ==> 0 < took && used + took <= |source| && start + |more| == next + wrote <= end
    ensures !halt ==> view(used + took, more, result) == view(used, out, status) && target[..] == Laid(before, start, more)
  {
    ghost var now, s := target[..], step(source[used..], end - next);
    halt, result, took, wrote := Turn32to8(source, used, target, next, end, strict, status, step);
    Turning(view, step, source, start, end - start, used, out, status, before, now, end - next, next, s,
            Turn(halt, result, took, wrote, target[..]));
    more := if halt then out else out + s.units;
  }

  method ConvertUTF32toUTF16(source: seq<Code>, target: array<Unit>, start: nat, end: nat, strict: bool)
    returns (status: Status, used: nat, next: nat)
    requires start <= end <= target.Length
    modifies target
    ensures Call(status, used, next, target[..]) == Returned(Convert(From32To16(strict), source, end - start, ConversionOK), start, old(target[..]))
    ensures start <= next <= end
  {
    ghost var step, room := From32To16(strict), end - start;
    ghost var view := Viewing(step, source, room);
    From32To16Is(strict);
    ViewAtStart(step, source, room);
    status, used, next := Loop32to16(source, target, start, end, strict, step, view, Convert(step, source, room, ConversionOK));
  }

  method Loop32to16(
      source: seq<Code>, target: array<Unit>, start: nat, end: nat, strict: bool, ghost step: Stepper<Code, Unit>, ghost view: View<Unit>,
      ghost goal: Outcome<Unit>)
    returns (status: Status, used: nat, next: nat)
    requires start <= end <= target.Length && Is32to16(step, strict) && Views(view, step, source, end - start)
    requires view(0, [], ConversionOK) == goal
    modifies target
    ensures Call(status, used, next, target[..]) == Returned(goal, start, old(target[..]))
    ensures start <= next <= end
  {
    ghost var before := target[..];
    ghost var out: seq<Unit> := [];
    status, used, next := ConversionOK, 0, start;
    LaidNothing(before, start);
    while used < |source|
      invariant used <= |source| && next == start + |out| <= end
      invariant view(used, out, status) == goal
      invariant target[..] == Laid(before, start, out)
    {
      var halt, took, wrote;
      halt, status, took, wrote, out := Pass32to16(source, used, target, start, next, end, strict, status, step, view, out, before);
      if halt {
        return;
      }
      used, next := used + took, next + wrote;
    }
    Arriving(view, step, source, start, end - start, out, status, before, target[..]);
  }

  method Pass32to16(
      source: seq<Code>, used: nat, target: array<Unit>, start: nat, next: nat, end: nat, strict: bool, status: Status,
      ghost step: Stepper<Code, Unit>, ghost view: View<Unit>, ghost out: seq<Unit>, ghost before: seq<Unit>)
    returns (halt: bool, result: Status, took: nat, wrote: nat, ghost more: seq<Unit>)
    requires used < |source| && next == start + |out| <= end <= target.Length
    requires Is32to16(step, strict) && Views(view, step, source, end - start)
    requires |before| == target.Length && target[..] == Laid(before, start, out)
    modifies target
    ensures halt ==> Call(result, used, next, target[..]) == Returned(view(used, out, status), start, before)
    ensures !halt ==> 0 < took && used + took <= |source| && start + |more| == next + wrote <= end
    ensures !halt ==> view(used + took, more, result) == view(used, out, status) && target[..] == Laid(before, start, more)
  {
    ghost var now, s := target[..], step(source[used..], end - next);
    halt, result, took, wrote := Turn32to16(source, used, target, next, end, strict, status, step);
    Turning(view, step, source, start, end - start, used, out, status, before, now, end - next, next, s,
            Turn(halt, result, took, wrote, target[..]));
    more := if halt then out else out + s.units;
  }

  // ----- One character

  /** A source that is one whole character, or begins with none. */
  lemma FirstConverts(src: seq<Byte>)
    requires src != [] && (Read8(src).Got? ==> Read8(src).used == |src|)
    ensures var o := Convert(From8To16(true), src, 2, ConversionOK);
            if Read8(src).Got? then Read8(src).ch <= 0x10FFFF && o == Outcome(ConversionOK, |src|, Put16(Read8(src).ch))
            else o.status != ConversionOK && o.out == []
  {
    ReadIsScalar(src);
    var r := Read8(src);
    if r.Got? {
      var s := From8To16(true)(src, 2);
      assert s == Emit(|src|, Put16(r.ch), false);
      assert src[|src|..] == [] && Put16(r.ch) + [] == Put16(r.ch);
    }
  }

  /** Longer beginnings of a source read as the same character, or none. */
  lemma ReadLonger(src: seq<Byte>, e: nat, m: nat)
    requires 1 <= e <= m <= |src|
    ensures Read8(src[..e]).Got? ==> Read8(src[..m]) == Read8(src[..e])
    ensures Read8(src[..m]).Got? && Read8(src[..m]).used <= e ==> Read8(src[..e]) == Read8(src[..m])
  {
    var n := Trailing(src[0]) + 1;
    if n <= e {
      assert src[..e][..n] == src[..n] && src[..m][..n] == src[..n];
    }
  }

  /** One attempt at a character. */
  method TryChar(input: seq<Byte>, out: array<Unit>, at: nat) returns (status: Status, used: nat, next: nat)
    requires input != [] && (Read8(input).Got? ==> Read8(input).used == |input|)
    requires out.Length == 2 && at == 0
    modifies out
    ensures status == ConversionOK <==> Read8(input).Got?
    ensures status == ConversionOK ==>
              Read8(input).ch <= 0x10FFFF && used == |input| && out[..] == Laid(old(out[..]), 0, Put16(Read8(input).ch))
    ensures status != ConversionOK ==> next == at && out[..] == old(out[..])
  {
    FirstConverts(input);
    LaidNothing(out[..], 0);
    status, used, next := ConvertUTF8toUTF16(input, out, at, 2, true);
  }

  /** `UTF8ToUTF16Char`: tries longer and longer beginnings of the input, and finds
      the length and the units of its first character, or 0 if it begins with none. */
  method UTF8ToUTF16Char(input: seq<Byte>, length: int, out: array<Unit>) returns (n: nat)
    requires input != [] && length <= |input| && out.Length == 2
    modifies out
    ensures var r := Read8(input[..if length < 1 then 1 else length]);
            if r.Got? then r.ch <= 0x10FFFF && n == r.used && out[..] == Laid([0, 0], 0, Put16(r.ch))
            else n == 0 && out[..] == [0, 0]
  {
    out[0], out[1] := 0, 0;
    var most, end, target := if length < 1 then 1 else length, 1, 0;
    while end <= most
      invariant 1 <= end <= most + 1 && target == 0 && out[..] == [0, 0]
      invariant end > 1 ==> !Read8(input[..end - 1]).Got?
    {
      var status, used;
      if end > 1 {
        ReadLonger(input, end - 1, end);
      }
      status, used, target := TryChar(input[..end], out, target);
      if status == ConversionOK {
        ReadLonger(input, end, most);
        return used;
      }
      end := end + 1;
    }
    n := 0;
  }
}
