/** Conversions from UTF-32 into a target in pieces: what a noted error is worth when
    the converter has to go on in a new buffer, and where strict conversions stop.
 */
module UtfSplits {
  import opened Machine
  import opened UtfCodec
  import opened Conversions
  import opened UtfSteps

  /** How a converter treats single values: those it stops at, those it notes as an
      error, how much room it wants for one and how much it fills. */
  datatype Profile = Profile(stops: Code -> bool, notes: Code -> bool, wants: Code -> nat, fills: Code -> nat)

  ghost predicate StepFits<U>(step: Stepper<Code, U>, k: nat, p: Profile, src: seq<Code>, room: nat)
    requires src != []
  {
    var s, x := step(src, room), src[0];
    if p.stops(x) then s == Halt(SourceIllegal) || (s == Halt(TargetExhausted) && room < k)
    else if p.wants(x) > room then s == Halt(TargetExhausted)
    else s == step(src, k) && s.Emit? && s.used == 1 && |s.units| == p.fills(x) && s.bad == p.notes(x)
  }

  /** The converter takes one value at a time and treats it by the profile. */
  ghost predicate Steady<U(!new)>(step: Stepper<Code, U>, k: nat, p: Profile)
  {
    && (forall src, room: nat {:trigger step(src, room)} :: src != [] ==> StepFits(step, k, p, src, room))
    && (forall x :: p.fills(x) <= p.wants(x) <= k)
  }

  /** Besides, a value that is not noted fills what it wants, and none wants more beyond
      what it fills than a noted one. */
  ghost predicate Profiled<U(!new)>(step: Stepper<Code, U>, k: nat, p: Profile)
  {
    && Steady(step, k, p)
    && (forall x :: p.notes(x) || p.wants(x) == p.fills(x))
    && (forall x, y :: p.notes(y) ==> p.wants(x) - p.fills(x) <= p.wants(y) - p.fills(y))
  }

  /** What the values fill. */
  ghost function Width(p: Profile, xs: seq<Code>): nat
  {
    if xs == [] then 0 else p.fills(xs[0]) + Width(p, xs[1..])
  }

  lemma {:induction false} WidthConcat(p: Profile, xs: seq<Code>, ys: seq<Code>)
    ensures Width(p, xs + ys) == Width(p, xs) + Width(p, ys)
    decreases |xs|
  {
    if xs == [] {
      assert xs + ys == ys;
    } else {
      assert (xs + ys)[1..] == xs[1..] + ys;
      WidthConcat(p, xs[1..], ys);
    }
  }

  lemma WidthSplit(p: Profile, xs: seq<Code>, i: nat)
    requires i <= |xs|
    ensures Width(p, xs) == Width(p, xs[..i]) + Width(p, xs[i..])
  {
    assert xs == xs[..i] + xs[i..];
    WidthConcat(p, xs[..i], xs[i..]);
  }

  lemma WidthStep(p: Profile, xs: seq<Code>, i: nat)
    requires 0 < i <= |xs|
    ensures Width(p, xs[..i]) == p.fills(xs[0]) + Width(p, xs[1..][..i - 1])
  {
    assert xs[..i][1..] == xs[1..][..i - 1];
  }

  ghost predicate None(test: Code -> bool, xs: seq<Code>)
  {
    forall i :: 0 <= i < |xs| ==> !test(xs[i])
  }

  /** The index of the first value that passes the test, or the length. */
  ghost function First(test: Code -> bool, xs: seq<Code>): (n: nat)
    ensures n <= |xs| && None(test, xs[..n]) && (n < |xs| ==> test(xs[n]))
  {
    if xs == [] || test(xs[0]) then 0
    else
      var n := 1 + First(test, xs[1..]);
      assert forall i :: 0 < i < n ==> xs[i] == xs[1..][i - 1];
      n
  }

  // ----- With room to spare

  /** A conversion goes up to the first value it stops at; it fails if there is one, or
      if it has noted one before. */
  lemma {:induction false} AllOutcome<U(!new)>(step: Stepper<Code, U>, k: nat, p: Profile, src: seq<Code>, status: Status)
    requires Steady(step, k, p)
    ensures var o, n := ConvertAll(step, k, src, status), First(p.stops, src);
            && o.used == n
            && o.status == if n < |src| || !None(p.notes, src) then SourceIllegal else status
    decreases |src|
  {
    if src != [] {
      assert StepFits(step, k, p, src, k);
      if !p.stops(src[0]) {
        AllOutcome(step, k, p, src[1..], Noted(status, p.notes(src[0])));
        assert None(p.notes, src) <==> !p.notes(src[0]) && None(p.notes, src[1..]) by {
          assert src == [src[0]] + src[1..];
        }
      }
    }
  }

  // ----- One buffer

  /** The first `n` values fitted, and the next one does not if the room is out. */
  ghost predicate Fitted(p: Profile, src: seq<Code>, room: nat, n: nat, out: bool)
  {
    && n <= |src| && (out ==> n < |src| && Width(p, src[..n]) + p.wants(src[n]) > room)
    && forall i :: 0 <= i < n ==> Width(p, src[..i]) + p.wants(src[i]) <= room
  }

  /** Where a buffer runs out: what came before fitted, the next value does not. */
  lemma {:induction false} RunsOut<U(!new)>(step: Stepper<Code, U>, k: nat, p: Profile, src: seq<Code>, room: nat, status: Status)
    requires Steady(step, k, p) && None(p.stops, src) && status != TargetExhausted
    ensures var o := Convert(step, src, room, status); Fitted(p, src, room, o.used, o.status == TargetExhausted)
    decreases |src|
  {
    if src != [] {
      assert StepFits(step, k, p, src, room);
      var s := step(src, room);
      if s.Emit? {
        var rest := Convert(step, src[1..], room - |s.units|, Noted(status, s.bad));
        RunsOut(step, k, p, src[1..], room - |s.units|, Noted(status, s.bad));
        FittedLater(p, src, rest.used, room, rest.status == TargetExhausted);
      }
    }
  }

  lemma FittedLater(p: Profile, src: seq<Code>, n: nat, room: nat, out: bool)
    requires src != [] && p.wants(src[0]) <= room && p.fills(src[0]) <= room
    requires Fitted(p, src[1..], room - p.fills(src[0]), n, out)
    ensures Fitted(p, src, room, 1 + n, out)
  {
    forall i | 0 <= i < 1 + n
      ensures Width(p, src[..i]) + p.wants(src[i]) <= room
    {
      if i > 0 {
        WidthStep(p, src, i);
        assert Width(p, src[1..][..i - 1]) + p.wants(src[1..][i - 1]) <= room - p.fills(src[0]);
      }
    }
    if out {
      WidthStep(p, src, 1 + n);
    }
  }

  /** What does not fit runs the buffer out. */
  lemma {:induction false} Overflows<U(!new)>(step: Stepper<Code, U>, k: nat, p: Profile, src: seq<Code>, room: nat, status: Status)
    requires Steady(step, k, p) && None(p.stops, src) && Width(p, src) > room
    ensures Convert(step, src, room, status).status == TargetExhausted
    decreases |src|
  {
    assert StepFits(step, k, p, src, room);
    var s := step(src, room);
    if s.Emit? {
      Overflows(step, k, p, src[1..], room - |s.units|, Noted(status, s.bad));
    }
  }

  /** With room for a noted value the converter gets past it. */
  lemma {:induction false} Passes<U(!new)>(step: Stepper<Code, U>, k: nat, p: Profile, src: seq<Code>, room: nat, status: Status, i: nat)
    requires Profiled(step, k, p) && None(p.stops, src)
    requires i < |src| && p.notes(src[i]) && Width(p, src[..i]) + p.wants(src[i]) <= room
    ensures i < Convert(step, src, room, status).used
    decreases |src|
  {
    assert StepFits(step, k, p, src, room);
    var s := step(src, room);
    if i > 0 {
      WidthStep(p, src, i);
      assert p.wants(src[0]) <= room;
      assert src[1..][i - 1] == src[i];
      Passes(step, k, p, src[1..], room - |s.units|, Noted(status, s.bad), i - 1);
    }
  }

  /** The outcome `o` is that of the whole, or goes up to where the rest begins. */
  ghost predicate BeginsAs<U>(step: Stepper<Code, U>, k: nat, p: Profile, src: seq<Code>, status: Status, o: Outcome<U>)
  {
    var all := ConvertAll(step, k, src, status);
    && o.used <= |src|
    && (o.status != TargetExhausted ==> o == all)
    && (o.status == TargetExhausted ==>
          var rest := ConvertAll(step, k, src[o.used..], ConversionOK);
          all.used == o.used + rest.used && all.out == o.out + rest.out && None(p.stops, src[..o.used]))
  }

  /** One buffer is the beginning of the whole, but for what was noted in it. */
  lemma {:induction false} BufferBegins<U(!new)>(step: Stepper<Code, U>, k: nat, p: Profile, src: seq<Code>, room: nat, status: Status)
    requires Steady(step, k, p) && status != TargetExhausted
    ensures BeginsAs(step, k, p, src, status, Convert(step, src, room, status))
    decreases |src|
  {
    if src != [] {
      assert StepFits(step, k, p, src, room);
      assert StepFits(step, k, p, src, k);
      var s := step(src, room);
      if s.Emit? {
        var next := Noted(status, s.bad);
        BufferBegins(step, k, p, src[1..], room - |s.units|, next);
        BeginsNext(step, k, p, src, status, s, Convert(step, src[1..], room - |s.units|, next));
      } else {
        StatusApart(step, k, p, src, status);
      }
    }
  }

  lemma BeginsNext<U>(step: Stepper<Code, U>, k: nat, p: Profile, src: seq<Code>, status: Status, s: Step<U>, o: Outcome<U>)
    requires src != [] && !p.stops(src[0]) && step(src, k) == s && s.Emit? && s.used == 1
    requires BeginsAs(step, k, p, src[1..], Noted(status, s.bad), o)
    ensures BeginsAs(step, k, p, src, status, o.After(1, s.units))
  {
    assert ConvertAll(step, k, src, status) == ConvertAll(step, k, src[1..], Noted(status, s.bad)).After(1, s.units);
    if o.status == TargetExhausted {
      Later(p, src, s.units, o.out, o.used, ConvertAll(step, k, src[1..][o.used..], ConversionOK).out);
    }
  }

  lemma Later<U>(p: Profile, src: seq<Code>, a: seq<U>, b: seq<U>, n: nat, c: seq<U>)
    requires src != [] && !p.stops(src[0]) && n <= |src[1..]| && None(p.stops, src[1..][..n])
    ensures src[1..][n..] == src[1 + n..] && a + (b + c) == a + b + c && None(p.stops, src[..1 + n])
  {
    assert forall i :: 0 < i <= n ==> src[i] == src[1..][..n][i - 1];
  }

  /** The status before does not matter for where a conversion goes. */
  lemma StatusApart<U(!new)>(step: Stepper<Code, U>, k: nat, p: Profile, src: seq<Code>, status: Status)
    requires Steady(step, k, p)
    ensures var o, r := ConvertAll(step, k, src, status), ConvertAll(step, k, src[0..], ConversionOK);
            o.used == r.used && o.out == r.out && [] + r.out == r.out
    decreases |src|
  {
    assert src[0..] == src;
    SameWay(step, k, p, src, status, ConversionOK);
  }

  lemma {:induction false} SameWay<U(!new)>(step: Stepper<Code, U>, k: nat, p: Profile, src: seq<Code>, a: Status, b: Status)
    requires Steady(step, k, p)
    ensures var o, r := ConvertAll(step, k, src, a), ConvertAll(step, k, src, b); o.used == r.used && o.out == r.out
    decreases |src|
  {
    if src != [] {
      assert StepFits(step, k, p, src, k);
      var s := step(src, k);
      if s.Emit? {
        SameWay(step, k, p, src[1..], Noted(a, s.bad), Noted(b, s.bad));
      }
    }
  }

  // ----- A target in pieces

  /** Enough buffers, each with room for any one step. */
  ghost predicate Enough(rooms: seq<nat>, k: nat, n: nat)
  {
    n < |rooms| && forall i :: 0 <= i < |rooms| ==> rooms[i] >= k
  }

  /** However the target is split, the units and the place in the source are those of
      one large call; so is the status, except that an error noted on the way may be
      gone: then no value stops the converter, and it says that all went well. */
  lemma {:induction false} PiecesAgree<U(!new)>(step: Stepper<Code, U>, k: nat, p: Profile, src: seq<Code>, rooms: seq<nat>)
    requires Steady(step, k, p) && 0 < k && Enough(rooms, k, |src|)
    ensures var r, all := Resume(step, src, rooms), ConvertAll(step, k, src, ConversionOK);
            && r.used == all.used && r.out == all.out
            && (r.status == all.status || (r.status == ConversionOK && None(p.stops, src) && !None(p.notes, src)))
            && (r.status == ConversionOK || r.status == SourceIllegal)
    decreases |rooms|
  {
    var o := Convert(step, src, rooms[0], ConversionOK);
    BufferBegins(step, k, p, src, rooms[0], ConversionOK);
    if o.status == TargetExhausted {
      GoesOn(step, k, p, src, rooms[0]);
      PiecesAgree(step, k, p, src[o.used..], rooms[1..]);
      StatusLater(step, k, p, src, o.used);
    } else {
      AllOutcome(step, k, p, src, ConversionOK);
    }
  }

  /** The status of the rest is that of the whole, unless only noted values make the
      whole fail. */
  lemma StatusLater<U(!new)>(step: Stepper<Code, U>, k: nat, p: Profile, src: seq<Code>, n: nat)
    requires Steady(step, k, p) && n <= |src| && None(p.stops, src[..n])
    ensures var all, rest := ConvertAll(step, k, src, ConversionOK).status, ConvertAll(step, k, src[n..], ConversionOK).status;
            rest == all || (rest == ConversionOK && None(p.stops, src) && !None(p.notes, src))
    ensures None(p.stops, src[n..]) && !None(p.notes, src[n..]) ==> None(p.stops, src) && !None(p.notes, src)
  {
    AllOutcome(step, k, p, src, ConversionOK);
    AllOutcome(step, k, p, src[n..], ConversionOK);
    StopsLater(p, src, n);
    NoneIsFirst(p.stops, src[n..]);
  }

  lemma NoneIsFirst(test: Code -> bool, xs: seq<Code>)
    ensures None(test, xs) <==> First(test, xs) == |xs|
  {
    assert xs[..|xs|] == xs;
  }

  /** A buffer with room for any step takes at least one value. */
  lemma GoesOn<U(!new)>(step: Stepper<Code, U>, k: nat, p: Profile, src: seq<Code>, room: nat)
    requires Steady(step, k, p) && room >= k && Convert(step, src, room, ConversionOK).status == TargetExhausted
    ensures 0 < Convert(step, src, room, ConversionOK).used
  {
    if src != [] {
      assert StepFits(step, k, p, src, room);
    }
  }

  lemma {:induction false} StopsLater(p: Profile, src: seq<Code>, n: nat)
    requires n <= |src| && None(p.stops, src[..n])
    ensures First(p.stops, src) == n + First(p.stops, src[n..])
    ensures None(p.stops, src[n..]) ==> None(p.stops, src)
    ensures None(p.notes, src) ==> None(p.notes, src[n..])
  {
    var f := First(p.stops, src[n..]);
    assert forall i :: 0 <= i < |src| ==> src[i] == if i < n then src[..n][i] else src[n..][i - n];
    FirstIs(p.stops, src, n + f);
  }

  lemma {:induction false} FirstIs(test: Code -> bool, xs: seq<Code>, n: nat)
    requires n <= |xs| && (forall i :: 0 <= i < n ==> !test(xs[i])) && (n < |xs| ==> test(xs[n]))
    ensures First(test, xs) == n
    decreases |xs|
  {
    if n > 0 {
      FirstIs(test, xs[1..], n - 1);
    }
  }

  lemma {:induction false} FirstAtMost(test: Code -> bool, xs: seq<Code>, i: nat)
    requires i < |xs| && test(xs[i])
    ensures First(test, xs) <= i
    decreases |xs|
  {
    if i > 0 {
      FirstAtMost(test, xs[1..], i - 1);
    }
  }

  // ----- When an error is lost

  /** The last noted value of a source that no value stops is at `i`, and what comes
      out of the source does not fit the least buffer that takes that value. */
  ghost predicate LosesAt(p: Profile, k: nat, src: seq<Code>, i: int)
  {
    && 0 <= i < |src| && p.notes(src[i]) && None(p.notes, src[i + 1..])
    && Width(p, src) > k && Width(p, src) > Width(p, src[..i]) + p.wants(src[i])
  }

  /** A noted error that is gone was lost at the end of such a buffer. */
  lemma {:induction false} LostNeeds<U(!new)>(step: Stepper<Code, U>, k: nat, p: Profile, src: seq<Code>, rooms: seq<nat>, i: nat)
    requires Profiled(step, k, p) && 0 < k && Enough(rooms, k, |src|) && None(p.stops, src)
    requires i < |src| && p.notes(src[i]) && None(p.notes, src[i + 1..])
    requires Resume(step, src, rooms).status == ConversionOK
    ensures LosesAt(p, k, src, i)
    decreases |rooms|
  {
    var o := Convert(step, src, rooms[0], ConversionOK);
    BufferBegins(step, k, p, src, rooms[0], ConversionOK);
    AllOutcome(step, k, p, src, ConversionOK);
    RunsOut(step, k, p, src, rooms[0], ConversionOK);
    var j := o.used;
    assert o.status == TargetExhausted;
    GoesOn(step, k, p, src, rooms[0]);
    if j <= i {
      assert src[j..][i - j + 1..] == src[i + 1..];
      LostNeeds(step, k, p, src[j..], rooms[1..], i - j);
      LosesLater(p, k, src, i, j);
    } else {
      assert src[j] == src[i + 1..][j - i - 1];
      LosesHere(p, k, src, i, j, rooms[0]);
    }
  }

  lemma LosesHere(p: Profile, k: nat, src: seq<Code>, i: nat, j: nat, room: nat)
    requires i < j < |src| && k <= room && Fitted(p, src, room, j, true) && p.wants(src[j]) == p.fills(src[j])
    requires p.notes(src[i]) && None(p.notes, src[i + 1..])
    ensures LosesAt(p, k, src, i)
  {
    WidthSplit(p, src, j);
    assert src[j..][0] == src[j];
    assert Width(p, src) > room;
    assert Width(p, src[..i]) + p.wants(src[i]) <= room;
  }

  lemma LosesLater(p: Profile, k: nat, src: seq<Code>, i: nat, j: nat)
    requires j <= i < |src| && LosesAt(p, k, src[j..], i - j)
    ensures LosesAt(p, k, src, i)
  {
    var rest := src[j..];
    WidthSplit(p, src, j);
    WidthSplit(p, src[..i], j);
    assert src[..i][..j] == src[..j] && src[..i][j..] == rest[..i - j];
    assert rest[i - j + 1..] == src[i + 1..];
  }

  /** In such a source the error is lost under some split. */
  lemma LostUnder<U(!new)>(step: Stepper<Code, U>, k: nat, p: Profile, src: seq<Code>, i: nat) returns (rooms: seq<nat>)
    requires Profiled(step, k, p) && 0 < k && None(p.stops, src) && LosesAt(p, k, src, i)
    ensures Enough(rooms, k, |src|) && Resume(step, src, rooms).status == ConversionOK
    ensures var least := Width(p, src[..i]) + p.wants(src[i]);
            |rooms| == |src| + 2 && rooms[0] == (if least < k then k else least) && forall j :: 0 < j < |rooms| ==> rooms[j] == k
  {
    var least := Width(p, src[..i]) + p.wants(src[i]);
    var room := if least < k then k else least;
    var more := seq(|src| + 1, _ => k);
    rooms := [room] + more;
    Overflows(step, k, p, src, room, ConversionOK);
    Passes(step, k, p, src, room, ConversionOK, i);
    BufferBegins(step, k, p, src, room, ConversionOK);
    var n := Convert(step, src, room, ConversionOK).used;
    RestGoesWell(step, k, p, src, i, n, more);
    assert rooms[1..] == more;
  }

  lemma RestGoesWell<U(!new)>(
      step: Stepper<Code, U>, k: nat, p: Profile, src: seq<Code>, i: nat, n: nat, rooms: seq<nat>)
    requires Steady(step, k, p) && 0 < k && None(p.stops, src) && i < n <= |src| && None(p.notes, src[i + 1..])
    requires Enough(rooms, k, |src|)
    ensures Resume(step, src[n..], rooms).status == ConversionOK
  {
    var rest := src[n..];
    forall m | 0 <= m < |rest|
      ensures !p.notes(rest[m]) && !p.stops(rest[m])
    {
      assert rest[m] == src[i + 1..][n - i - 1 + m] && rest[m] == src[n + m];
    }
    PiecesAgree(step, k, p, rest, rooms);
    AllOutcome(step, k, p, rest, ConversionOK);
    NoneIsFirst(p.stops, rest);
  }

  /** A source that contains a noted value contains a last one. */
  lemma {:induction false} LastNoted(p: Profile, src: seq<Code>) returns (i: nat)
    requires !None(p.notes, src)
    ensures i < |src| && p.notes(src[i]) && None(p.notes, src[i + 1..])
    decreases |src|
  {
    var n := |src| - 1;
    if p.notes(src[n]) {
      i := n;
    } else {
      assert !None(p.notes, src[..n]) by {
        var j :| 0 <= j < |src| && p.notes(src[j]);
        assert src[..n][j] == src[j];
      }
      i := LastNoted(p, src[..n]);
      var rest := src[i + 1..];
      forall m | 0 <= m < |rest|
        ensures !p.notes(rest[m])
      {
        assert m < n - i - 1 ==> rest[m] == src[..n][i + 1..][m];
      }
    }
  }

  /** Splitting the target makes a difference exactly if no value stops the converter
      and the last noted one can be lost. */
  lemma SplitExact<U(!new)>(step: Stepper<Code, U>, k: nat, p: Profile, src: seq<Code>)
    requires Profiled(step, k, p) && 0 < k
    ensures (exists rooms :: Enough(rooms, k, |src|) && Resume(step, src, rooms) != ConvertAll(step, k, src, ConversionOK)) <==>
            None(p.stops, src) && exists i :: LosesAt(p, k, src, i)
  {
    AllOutcome(step, k, p, src, ConversionOK);
    if rooms :| Enough(rooms, k, |src|) && Resume(step, src, rooms) != ConvertAll(step, k, src, ConversionOK) {
      PiecesAgree(step, k, p, src, rooms);
      var i := LastNoted(p, src);
      LostNeeds(step, k, p, src, rooms, i);
    }
    if None(p.stops, src) && exists i :: LosesAt(p, k, src, i) {
      var i :| LosesAt(p, k, src, i);
      var rooms := LostUnder(step, k, p, src, i);
      assert !None(p.notes, src);
    }
  }

  // ----- The converters

  function Stops(strict: bool): Code -> bool
  {
    ch => strict && Surrogate(ch)
  }

  function TooLarge(): Code -> bool
  {
    ch => ch > 0x10FFFF
  }

  /** To UTF-8: too large a value is replaced, which takes three bytes. */
  function Profile8(strict: bool): Profile
  {
    Profile(Stops(strict), TooLarge(), (ch: Code) => |Put8(ch)|, (ch: Code) => |Put8(ch)|)
  }

  function Units16(ch: Code): nat
  {
    if 0xFFFF < ch <= 0x10FFFF then 2 else 1
  }

  /** To UTF-16: in strict mode too large a value needs a unit of room and fills none. */
  function Profile16(strict: bool): Profile
  {
    Profile(Stops(strict), ch => strict && ch > 0x10FFFF, (ch: Code) => Units16(ch),
            (ch: Code) => if strict && ch > 0x10FFFF then 0 else Units16(ch))
  }

  lemma Profiled8(strict: bool)
    ensures Profiled(From32To8(strict), 4, Profile8(strict))
  {
    forall src, room: nat | src != []
      ensures StepFits(From32To8(strict), 4, Profile8(strict), src, room)
    {
    }
  }

  lemma Profiled16(strict: bool)
    ensures Profiled(From32To16(strict), 2, Profile16(strict))
  {
    forall src, room: nat | src != []
      ensures StepFits(From32To16(strict), 2, Profile16(strict), src, room)
    {
    }
  }

  /** Splitting the target of a conversion from UTF-32 makes no difference if no value
      is too large; to UTF-16 it makes none either unless the conversion is strict.
      Otherwise it makes one exactly if no surrogate stops the conversion and the
      output does not fit the least buffer that takes the last value that is too large:
      then the error is lost under some split. */
  lemma SplitFrom32(cs: seq<Code>, strict: bool)
    ensures (exists rooms :: Enough(rooms, 4, |cs|) && Resume(From32To8(strict), cs, rooms) != ConvertAll(From32To8(strict), 4, cs, ConversionOK)) <==>
            None(Stops(strict), cs) && exists i :: LosesAt(Profile8(strict), 4, cs, i)
    ensures (exists rooms :: Enough(rooms, 2, |cs|) && Resume(From32To16(strict), cs, rooms) != ConvertAll(From32To16(strict), 2, cs, ConversionOK)) <==>
            None(Stops(strict), cs) && exists i :: LosesAt(Profile16(strict), 2, cs, i)
    ensures None(TooLarge(), cs) ==> !exists i :: LosesAt(Profile8(strict), 4, cs, i)
    ensures None(TooLarge(), cs) || !strict ==> !exists i :: LosesAt(Profile16(strict), 2, cs, i)
  {
    Profiled8(strict);
    Profiled16(strict);
    SplitExact(From32To8(strict), 4, Profile8(strict), cs);
    SplitExact(From32To16(strict), 2, Profile16(strict), cs);
  }

  /** With room to spare a strict conversion from UTF-32 stops at the first surrogate;
      that is the first value that is not a scalar exactly if no value before it is too
      large. */
  lemma StrictStops(cs: seq<Code>)
    ensures var n := First(Stops(true), cs);
            && ConvertAll(From32To8(true), 4, cs, ConversionOK).used == n
            && ConvertAll(From32To16(true), 2, cs, ConversionOK).used == n
            && (n == First((ch: Code) => !Scalar(ch), cs) <==> None(TooLarge(), cs[..n]))
  {
    Profiled8(true);
    Profiled16(true);
    AllOutcome(From32To8(true), 4, Profile8(true), cs, ConversionOK);
    AllOutcome(From32To16(true), 2, Profile16(true), cs, ConversionOK);
    var wrong := (ch: Code) => !Scalar(ch);
    var n := First(Stops(true), cs);
    if None(TooLarge(), cs[..n]) {
      forall i | 0 <= i < n
        ensures !wrong(cs[i])
      {
        assert !Stops(true)(cs[..n][i]) && !TooLarge()(cs[..n][i]);
      }
      FirstIs(wrong, cs, n);
    } else {
      var i :| 0 <= i < n && TooLarge()(cs[..n][i]);
      FirstAtMost(wrong, cs, i);
    }
  }

  const LOST: seq<Code> := [0x110000, 0x41, 0x42, 0x43]

  /** An input at which it fails: six buffers of two units, and all seems well. */
  lemma ErrorLost()
    ensures !IsText(LOST) && Resume(From32To16(true), LOST, [2, 2, 2, 2, 2, 2]).status == ConversionOK
    ensures ConvertAll(From32To16(true), 2, LOST, ConversionOK).status == SourceIllegal
  {
    var p := Profile16(true);
    assert !Scalar(LOST[0]);
    Profiled16(true);
    LostWidth(p);
    assert LOST[..0] == [];
    var rooms := LostUnder(From32To16(true), 2, p, LOST, 0);
    assert rooms == [2, 2, 2, 2, 2, 2];
    AllOutcome(From32To16(true), 2, p, LOST, ConversionOK);
    assert p.notes(LOST[0]);
  }

  lemma LostWidth(p: Profile)
    requires p == Profile16(true)
    ensures Width(p, LOST) == 3 && None(p.stops, LOST) && None(p.notes, LOST[0 + 1..])
  {
    assert LOST[1..] == [0x41, 0x42, 0x43];
    assert LOST[1..][1..] == [0x42, 0x43];
    assert LOST[1..][1..][1..] == [0x43];
    assert Width(p, [0x43][1..]) == 0;
  }
}
