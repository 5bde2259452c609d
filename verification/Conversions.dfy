/** What the Unicode converters have in common: they take the source one step at a
    time until it ends, a step stops them, or the target is full.
 */
module Conversions {

  /** `ConversionResult`. */
  datatype Status = ConversionOK | SourceExhausted | TargetExhausted | SourceIllegal

  /** One turn of a converter's loop: it stops, or consumes and produces something,
      noting an error to report at the end or not. */
  datatype Step<U> = Halt(status: Status) | Emit(used: nat, units: seq<U>, bad: bool)

  /** A step at the beginning of a source that is not empty, with room left. */
  type Stepper<!S, !U> = (seq<S>, nat) -> Step<U>

  datatype Outcome<U> = Outcome(status: Status, used: nat, out: seq<U>) {
    /** What it is as the rest of a conversion that has used and produced before. */
    function After(u: nat, before: seq<U>): Outcome<U>
    {
      Outcome(status, u + used, before + out)
    }
  }

  function Noted(status: Status, bad: bool): Status
  {
    if bad then SourceIllegal else status
  }

  /** A step takes at least one unit of the source, and what is there. */
  predicate Fits<S, U>(src: seq<S>, room: nat, s: Step<U>)
  {
    s.Emit? && 0 < s.used <= |src| && |s.units| <= room
  }

  /** A whole conversion. */
  ghost function Convert<S, U>(step: Stepper<S, U>, src: seq<S>, room: nat, status: Status): Outcome<U>
    decreases |src|
  {
    if src == [] then Outcome(status, 0, [])
    else
      var s := step(src, room);
      if s.Halt? then Outcome(s.status, 0, [])
      else if !Fits(src, room, s) then Outcome(status, 0, [])
      else Convert(step, src[s.used..], room - |s.units|, Noted(status, s.bad)).After(s.used, s.units)
  }

  // ----- Converting into a buffer

  /** The outcome that lies ahead of a converter that has used and produced so much. */
  ghost function Ahead<S, U>(step: Stepper<S, U>, src: seq<S>, room: nat, used: nat, out: seq<U>, status: Status): Outcome<U>
    requires used <= |src| && |out| <= room
  {
    Convert(step, src[used..], room - |out|, status).After(used, out)
  }

  lemma AheadAtStart<S, U>(step: Stepper<S, U>, src: seq<S>, room: nat)
    ensures Ahead(step, src, room, 0, [], ConversionOK) == Convert(step, src, room, ConversionOK)
  {
    assert src[0..] == src;
    var o := Convert(step, src, room, ConversionOK);
    assert [] + o.out == o.out;
  }

  lemma AheadEmit<S, U>(
      step: Stepper<S, U>, src: seq<S>, room: nat, used: nat, out: seq<U>, status: Status, s: Step<U>)
    requires used < |src| && |out| <= room
    requires step(src[used..], room - |out|) == s && Fits(src[used..], room - |out|, s)
    ensures Ahead(step, src, room, used, out, status) ==
            Ahead(step, src, room, used + s.used, out + s.units, Noted(status, s.bad))
  {
    assert src[used..][s.used..] == src[used + s.used..];
    AfterTwice(Convert(step, src[used + s.used..], room - |out| - |s.units|, Noted(status, s.bad)), used, out, s.used, s.units);
  }

  lemma AheadHalt<S, U>(
      step: Stepper<S, U>, src: seq<S>, room: nat, used: nat, out: seq<U>, status: Status)
    requires used < |src| && |out| <= room && step(src[used..], room - |out|).Halt?
    ensures Ahead(step, src, room, used, out, status) == Outcome(step(src[used..], room - |out|).status, used, out)
  {
    assert out + [] == out;
  }

  lemma AheadAtEnd<S, U>(
      step: Stepper<S, U>, src: seq<S>, room: nat, out: seq<U>, status: Status)
    requires |out| <= room
    ensures Ahead(step, src, room, |src|, out, status) == Outcome(status, |src|, out)
  {
    assert out + [] == out;
  }

  /** A buffer with `out` written at `start`. */
  function Laid<U>(buffer: seq<U>, start: nat, out: seq<U>): (r: seq<U>)
    requires start + |out| <= |buffer|
    ensures |r| == |buffer|
  {
    buffer[..start] + out + buffer[start + |out|..]
  }

  lemma LaidNothing<U>(buffer: seq<U>, start: nat)
    requires start <= |buffer|
    ensures Laid(buffer, start, []) == buffer
  {
  }

  lemma LaidMore<U>(buffer: seq<U>, start: nat, out: seq<U>, more: seq<U>)
    requires start + |out| + |more| <= |buffer|
    ensures Laid(Laid(buffer, start, out), start + |out|, more) == Laid(buffer, start, out + more)
  {
  }

  lemma LaidOne<U>(buffer: seq<U>, at: nat, x: U)
    requires at < |buffer|
    ensures buffer[at := x] == Laid(buffer, at, [x])
  {
  }

  // ----- With room to spare

  /** A room of `k` units is enough for any step, and `k` units for each unit used
      are enough for a conversion. */
  ghost predicate Roomy<S(!new), U(!new)>(step: Stepper<S, U>, k: nat)
  {
    forall src, room: nat {:trigger step(src, room)} :: src != [] && room >= k ==>
      && step(src, room) == step(src, k)
      && (step(src, k).Emit? ==>
            && 0 < step(src, k).used <= |src|
            && |step(src, k).units| <= k)
  }

  /** A conversion that never lacks room. */
  ghost function ConvertAll<S, U>(step: Stepper<S, U>, k: nat, src: seq<S>, status: Status): Outcome<U>
    decreases |src|
  {
    if src == [] then Outcome(status, 0, [])
    else
      var s := step(src, k);
      if s.Halt? then Outcome(s.status, 0, [])
      else if !(0 < s.used <= |src|) then Outcome(status, 0, [])
      else ConvertAll(step, k, src[s.used..], Noted(status, s.bad)).After(s.used, s.units)
  }

  /** A large enough target makes no difference. */
  lemma {:induction false} AmpleRoom<S(!new), U(!new)>(step: Stepper<S, U>, k: nat, src: seq<S>, room: nat, status: Status)
    requires Roomy(step, k) && k * |src| <= room
    ensures Convert(step, src, room, status) == ConvertAll(step, k, src, status)
    decreases |src|
  {
    if src != [] {
      var n := |src|;
      assert k <= k * n by {
        Grows(k, 0, n - 1);
      }
      var s := step(src, room);
      assert s == step(src, k);
      if s.Emit? {
        var rest := src[s.used..];
        Shrinks(k, |rest|, n, room, |s.units|);
        AmpleRoom(step, k, rest, room - |s.units|, Noted(status, s.bad));
      }
    }
  }

  lemma Grows(k: nat, a: nat, b: nat)
    ensures k * a <= k * (a + b) && k * (b + 1) == k * b + k
  {
  }

  lemma Shrinks(k: nat, rest: nat, n: nat, room: nat, units: nat)
    requires rest < n && k * n <= room && units <= k
    ensures k * rest <= room - units
  {
    Grows(k, rest, n - rest - 1);
    Grows(k, 0, n - 1);
    assert k * n == k * (n - 1) + k;
  }

  // ----- Stopping for lack of room, and resuming

  /** With less room a step is the same or stops for lack of room; it notes no
      errors for later, and only lack of room stops it that way. */
  ghost predicate Resumable<S(!new), U(!new)>(step: Stepper<S, U>, k: nat)
  {
    forall src, room: nat {:trigger step(src, room)} :: src != [] ==>
      && (step(src, room) == step(src, k) || step(src, room) == Halt(TargetExhausted))
      && (step(src, room).Emit? ==> Fits(src, room, step(src, room)) && !step(src, room).bad)
      && step(src, k) != Halt(TargetExhausted)
  }

  /** A conversion into one buffer is the beginning of the conversion with room to
      spare: all of it, or up to where a new buffer has to go on. */
  lemma {:induction false} BufferIsPrefix<S(!new), U(!new)>(step: Stepper<S, U>, k: nat, src: seq<S>, room: nat)
    requires Resumable(step, k)
    ensures Begins(step, k, src, Convert(step, src, room, ConversionOK))
    decreases |src|
  {
    if src != [] {
      var s := step(src, room);
      assert s == step(src, k) || s == Halt(TargetExhausted);
      var all := ConvertAll(step, k, src, ConversionOK);
      if s.Emit? {
        assert Fits(src, room, s) && !s.bad;
        BufferIsPrefix(step, k, src[s.used..], room - |s.units|);
        var o := Convert(step, src[s.used..], room - |s.units|, ConversionOK);
        BeginsLater(step, k, src, s, o);
      } else {
        assert src[0..] == src && [] + all.out == all.out;
      }
    }
  }

  /** The outcome `o` is that of the whole conversion, or where it has to go on. */
  ghost predicate Begins<S, U>(step: Stepper<S, U>, k: nat, src: seq<S>, o: Outcome<U>)
  {
    && o.used <= |src|
    && (o.status != TargetExhausted ==> o == ConvertAll(step, k, src, ConversionOK))
    && (o.status == TargetExhausted ==>
          ConvertAll(step, k, src, ConversionOK) == ConvertAll(step, k, src[o.used..], ConversionOK).After(o.used, o.out))
  }

  lemma BeginsLater<S, U>(step: Stepper<S, U>, k: nat, src: seq<S>, s: Step<U>, o: Outcome<U>)
    requires src != [] && step(src, k) == s && s.Emit? && 0 < s.used <= |src| && !s.bad
    requires Begins(step, k, src[s.used..], o)
    ensures Begins(step, k, src, o.After(s.used, s.units))
  {
    assert ConvertAll(step, k, src, ConversionOK) ==
           ConvertAll(step, k, src[s.used..], ConversionOK).After(s.used, s.units);
    assert src[s.used..][o.used..] == src[s.used + o.used..];
    AfterTwice(ConvertAll(step, k, src[s.used + o.used..], ConversionOK), s.used, s.units, o.used, o.out);
  }

  lemma AfterTwice<U>(o: Outcome<U>, u: nat, a: seq<U>, v: nat, b: seq<U>)
    ensures o.After(v, b).After(u, a) == o.After(u + v, a + b)
  {
    assert a + (b + o.out) == a + b + o.out;
  }

  /** A new buffer with room for one step makes progress. */
  lemma BufferProgress<S(!new), U(!new)>(step: Stepper<S, U>, k: nat, src: seq<S>, room: nat)
    requires Resumable(step, k) && Roomy(step, k) && room >= k
    ensures var o := Convert(step, src, room, ConversionOK);
            o.status == TargetExhausted ==> 0 < o.used <= |src|
  {
    if src != [] {
      var s := step(src, room);
      assert s == step(src, k);
      BufferIsPrefix(step, k, src, room);
    }
  }

  /** Converting into one buffer after another, as long as the target runs out. */
  ghost function Resume<S, U>(step: Stepper<S, U>, src: seq<S>, rooms: seq<nat>): Outcome<U>
    decreases |rooms|
  {
    if rooms == [] then Outcome(TargetExhausted, 0, [])
    else
      var o := Convert(step, src, rooms[0], ConversionOK);
      if o.status != TargetExhausted || o.used > |src| then o
      else Resume(step, src[o.used..], rooms[1..]).After(o.used, o.out)
  }

  /** However the target is split, the pieces together are the conversion in one:
      same units, same position in the source, same result. It ends after at most
      one buffer for each unit of the source and one more. */
  lemma {:induction false} ResumeIsWhole<S(!new), U(!new)>(step: Stepper<S, U>, k: nat, src: seq<S>, rooms: seq<nat>)
    requires Resumable(step, k) && Roomy(step, k)
    requires |src| < |rooms| && forall i :: 0 <= i < |rooms| ==> rooms[i] >= k
    ensures Resume(step, src, rooms) == ConvertAll(step, k, src, ConversionOK)
    decreases |rooms|
  {
    var o := Convert(step, src, rooms[0], ConversionOK);
    BufferIsPrefix(step, k, src, rooms[0]);
    BufferProgress(step, k, src, rooms[0]);
    if o.status == TargetExhausted {
      ResumeIsWhole(step, k, src[o.used..], rooms[1..]);
    }
  }
}
