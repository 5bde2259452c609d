/** What the STABS reader reports: the callbacks due for a sequence of entries, and
    the order that callbacks come in.
 */
module StabsEvents {
  import opened Machine
  import opened StabsEntries

  const N_UNDF: nat := 0x00
  const N_FUN: nat := 0x24
  const N_SLINE: nat := 0x44
  const N_SO: nat := 0x64
  const N_SOL: nat := 0x84

  const COLON: Byte := 0x3A
  const SLASH: Byte := 0x2F

  /** A callback. File names are places in the string section. */
  datatype Event =
    | StartUnit(name: nat, address: U64, directory: Option<nat>)
    | EndUnit(address: U64)
    | StartFunction(title: seq<Byte>, address: U64)
    | EndFunction(address: U64)
    | LineAt(address: U64, file: nat, number: nat)

  // ----- The order of callbacks

  datatype Phase = Outside | InUnit | InFunction

  /** The callbacks allowed in a phase, and where they lead: units of functions of
      lines. */
  function Next(p: Phase, e: Event): Option<Phase>
  {
    match e
    case StartUnit(_, _, _) => if p.Outside? then Some(InUnit) else None
    case EndUnit(_) => if p.InUnit? then Some(Outside) else None
    case StartFunction(_, _) => if p.InUnit? then Some(InFunction) else None
    case EndFunction(_) => if p.InFunction? then Some(InUnit) else None
    case LineAt(_, _, _) => if p.InFunction? then Some(InFunction) else None
  }

  /** The phase after `evs`, if they are all allowed. */
  function After(p: Phase, evs: seq<Event>): Option<Phase>
    decreases |evs|
  {
    if evs == [] then Some(p)
    else
      match After(p, evs[..|evs| - 1])
      case None => None
      case Some(q) => Next(q, evs[|evs| - 1])
  }

  lemma {:induction false} AfterConcat(p: Phase, a: seq<Event>, b: seq<Event>)
    ensures After(p, a + b) == match After(p, a) case None => None case Some(q) => After(q, b)
    decreases |b|
  {
    if b == [] {
      assert a + b == a;
    } else {
      assert (a + b)[..|a + b| - 1] == a + b[..|b| - 1];
      AfterConcat(p, a, b[..|b| - 1]);
    }
  }

  lemma AfterThen(p: Phase, q: Phase, a: seq<Event>, b: seq<Event>)
    requires After(p, a) == Some(q)
    ensures After(p, a + b) == After(q, b)
  {
    AfterConcat(p, a, b);
  }

  lemma AfterOne(p: Phase, e: Event)
    ensures After(p, [e]) == Next(p, e)
  {
    assert [e][..0] == [];
  }

  /** Beginnings of what is allowed are allowed; and whatever is allowed can be
      completed. */
  lemma AllowedPrefix(p: Phase, evs: seq<Event>, n: nat)
    requires n <= |evs| && After(p, evs).Some?
    ensures After(p, evs[..n]).Some?
  {
    assert evs == evs[..n] + evs[n..];
    AfterConcat(p, evs[..n], evs[n..]);
  }

  lemma AllowedCompletes(evs: seq<Event>) returns (rest: seq<Event>)
    requires After(Outside, evs).Some?
    ensures After(Outside, evs + rest) == Some(Outside)
  {
    var p := After(Outside, evs).value;
    rest := if p.Outside? then [] else if p.InUnit? then [EndUnit(0)] else [EndFunction(0), EndUnit(0)];
    AfterThen(Outside, p, evs, rest);
    assert [EndFunction(0), EndUnit(0)] == [EndFunction(0)] + [EndUnit(0)];
    AfterOne(InUnit, EndUnit(0));
    AfterOne(InFunction, EndFunction(0));
    AfterThen(InFunction, InUnit, [EndFunction(0)], [EndUnit(0)]);
  }

  // ----- The callbacks due

  /** The string section, and whether units have headers of their own. */
  datatype Sections = Sections(strings: seq<Byte>, unitized: bool) {
    /** `SymbolString`: a place within the section, 0 if the offset is outside. */
    function Symbol(base: U64, e: Entry): nat
    {
      var offset := (base + e.name) % TWO_64;
      if offset >= |strings| then 0 else offset
    }

    /** The string at a place. */
    function Text(at: nat): seq<Byte>
    {
      if at >= |strings| then [] else Until(strings[at..], 0)
    }
  }

  function Until(s: seq<Byte>, stop: Byte): seq<Byte>
  {
    if s == [] || s[0] == stop then [] else [s[0]] + Until(s[1..], stop)
  }

  datatype QueuedLine = QueuedLine(address: U64, file: nat, number: nat)

  /** Where the reader is. */
  datatype State = State(rest: seq<Entry>, base: U64, nextBase: U64, file: nat, queued: seq<QueuedLine>) {
    function Skip(): State
      requires rest != []
    {
      this.(rest := rest[1..])
    }

    function Clear(): State
    {
      this.(queued := [])
    }

    predicate At(kind: nat)
    {
      rest != [] && rest[0].kind == kind
    }
  }

  function Queued(ls: seq<QueuedLine>): seq<Event>
  {
    if ls == [] then [] else [LineAt(ls[0].address, ls[0].file, ls[0].number)] + Queued(ls[1..])
  }

  /** The callbacks from inside a function to its end, and the state then. */
  function FunctionRest(s: Sections, st: State, start: U64): (r: (seq<Event>, State))
    ensures |r.1.rest| <= |st.rest|
    decreases |st.rest|
  {
    if st.rest == [] then ([EndFunction(0)], st)
    else
      var e := st.rest[0];
      if e.kind == N_SO then ([EndFunction(e.value)], st)
      else if e.kind == N_FUN then
        if s.Text(s.Symbol(st.base, e)) == [] then ([EndFunction(Add64(start, e.value))], st.Skip())
        else ([EndFunction(e.value)], st)
      else if e.kind == N_SLINE then
        var r := FunctionRest(s, st.Skip(), start);
        ([LineAt(Add64(start, e.value), st.file, e.descriptor)] + r.0, r.1)
      else if e.kind == N_SOL then FunctionRest(s, st.Skip().(file := s.Symbol(st.base, e)), start)
      else FunctionRest(s, st.Skip(), start)
  }

  function FunctionTitle(s: Sections, st: State): seq<Byte>
    requires st.rest != []
  {
    Until(s.Text(s.Symbol(st.base, st.rest[0])), COLON)
  }

  /** The callbacks for a function. */
  function FunctionRun(s: Sections, st: State): (r: (seq<Event>, State))
    requires st.At(N_FUN)
    ensures |r.1.rest| < |st.rest|
  {
    var r := FunctionRest(s, st.Skip().Clear(), st.rest[0].value);
    ([StartFunction(FunctionTitle(s, st), st.rest[0].value)] + (Queued(st.queued) + r.0), r.1)
  }

  /** The callbacks from inside a compilation unit to its end. */
  function UnitRest(s: Sections, st: State): (r: (seq<Event>, State))
    ensures |r.1.rest| <= |st.rest|
    decreases |st.rest|
  {
    if st.rest == [] then ([EndUnit(0)], st.Clear())
    else
      var e := st.rest[0];
      if e.kind == N_SO then
        if s.Text(s.Symbol(st.base, e)) == [] then ([EndUnit(e.value)], st.Skip().Clear())
        else ([EndUnit(0)], st.Clear())
      else if e.kind == N_FUN then
        var f := FunctionRun(s, st);
        var r := UnitRest(s, f.1);
        (f.0 + r.0, r.1)
      else if e.kind == N_SLINE then
        UnitRest(s, st.Skip().(queued := st.queued + [QueuedLine(e.value, st.file, e.descriptor)]))
      else if e.kind == N_SOL then UnitRest(s, st.Skip().(file := s.Symbol(st.base, e)))
      else UnitRest(s, st.Skip())
  }

  predicate IsDirectory(name: seq<Byte>)
  {
    name != [] && name[|name| - 1] == SLASH
  }

  /** The callbacks for a compilation unit, if there is one. */
  function UnitRun(s: Sections, st: State): (r: (seq<Event>, State))
    requires st.At(N_SO)
    ensures |r.1.rest| < |st.rest|
  {
    var name := s.Symbol(st.base, st.rest[0]);
    var directory := if IsDirectory(s.Text(name)) then Some(name) else None;
    var st1 := if directory.Some? then st.Skip() else st;
    if !st1.At(N_SO) then ([], st1)
    else
      var file := s.Symbol(st1.base, st1.rest[0]);
      if s.Text(file) == [] then ([], st1.Skip())
      else
        var r := UnitRest(s, st1.Skip().(file := file));
        ([StartUnit(file, st1.rest[0].value, directory)] + r.0, r.1)
  }

  /** The callbacks for all entries. */
  function AllEvents(s: Sections, st: State): seq<Event>
    decreases |st.rest|
  {
    if st.rest == [] then []
    else if st.At(N_SO) then
      var u := UnitRun(s, st);
      u.0 + AllEvents(s, u.1)
    else if st.At(N_UNDF) && s.unitized then
      AllEvents(s, st.Skip().(base := st.nextBase, nextBase := st.rest[0].value))
    else AllEvents(s, st.Skip())
  }

  // ----- They come in order

  lemma {:induction false} QueuedInOrder(ls: seq<QueuedLine>)
    ensures After(InFunction, Queued(ls)) == Some(InFunction)
    decreases |ls|
  {
    if ls != [] {
      var e := LineAt(ls[0].address, ls[0].file, ls[0].number);
      QueuedInOrder(ls[1..]);
      AfterOne(InFunction, e);
      AfterThen(InFunction, InFunction, [e], Queued(ls[1..]));
    }
  }

  lemma {:induction false} FunctionRestInOrder(s: Sections, st: State, start: U64)
    ensures After(InFunction, FunctionRest(s, st, start).0) == Some(InUnit)
    decreases |st.rest|
  {
    if st.rest == [] {
      AfterOne(InFunction, EndFunction(0));
    } else {
      var e := st.rest[0];
      AfterOne(InFunction, EndFunction(e.value));
      AfterOne(InFunction, EndFunction(Add64(start, e.value)));
      if e.kind == N_SLINE {
        var l := LineAt(Add64(start, e.value), st.file, e.descriptor);
        FunctionRestInOrder(s, st.Skip(), start);
        AfterOne(InFunction, l);
        AfterThen(InFunction, InFunction, [l], FunctionRest(s, st.Skip(), start).0);
      } else if e.kind == N_SOL {
        FunctionRestInOrder(s, st.Skip().(file := s.Symbol(st.base, e)), start);
      } else if e.kind != N_SO && e.kind != N_FUN {
        FunctionRestInOrder(s, st.Skip(), start);
      }
    }
  }

  lemma FunctionRunInOrder(s: Sections, st: State)
    requires st.At(N_FUN)
    ensures After(InUnit, FunctionRun(s, st).0) == Some(InUnit)
  {
    var f := StartFunction(FunctionTitle(s, st), st.rest[0].value);
    var r := FunctionRest(s, st.Skip().Clear(), st.rest[0].value).0;
    AfterOne(InUnit, f);
    QueuedInOrder(st.queued);
    FunctionRestInOrder(s, st.Skip().Clear(), st.rest[0].value);
    AfterThen(InFunction, InFunction, Queued(st.queued), r);
    AfterThen(InUnit, InFunction, [f], Queued(st.queued) + r);
  }

  lemma {:induction false} UnitRestInOrder(s: Sections, st: State)
    ensures After(InUnit, UnitRest(s, st).0) == Some(Outside)
    decreases |st.rest|
  {
    AfterOne(InUnit, EndUnit(0));
    if st.rest != [] {
      var e := st.rest[0];
      AfterOne(InUnit, EndUnit(e.value));
      if e.kind == N_FUN {
        var f := FunctionRun(s, st);
        FunctionRunInOrder(s, st);
        UnitRestInOrder(s, f.1);
        AfterThen(InUnit, InUnit, f.0, UnitRest(s, f.1).0);
      } else if e.kind == N_SLINE {
        UnitRestInOrder(s, st.Skip().(queued := st.queued + [QueuedLine(e.value, st.file, e.descriptor)]));
      } else if e.kind == N_SOL {
        UnitRestInOrder(s, st.Skip().(file := s.Symbol(st.base, e)));
      } else if e.kind != N_SO {
        UnitRestInOrder(s, st.Skip());
      }
    }
  }

  lemma UnitRunInOrder(s: Sections, st: State)
    requires st.At(N_SO)
    ensures After(Outside, UnitRun(s, st).0) == Some(Outside)
  {
    var r := UnitRun(s, st).0;
    if r != [] {
      var name := s.Symbol(st.base, st.rest[0]);
      var st1 := if IsDirectory(s.Text(name)) then st.Skip() else st;
      var next := st1.Skip().(file := s.Symbol(st1.base, st1.rest[0]));
      UnitRestInOrder(s, next);
      AfterOne(Outside, r[0]);
      AfterThen(Outside, InUnit, [r[0]], UnitRest(s, next).0);
    }
  }

  /** All callbacks due are in order and leave no unit or function open. */
  lemma {:induction false} AllInOrder(s: Sections, st: State)
    ensures After(Outside, AllEvents(s, st)) == Some(Outside)
    decreases |st.rest|
  {
    if st.rest != [] {
      if st.At(N_SO) {
        var u := UnitRun(s, st);
        UnitRunInOrder(s, st);
        AllInOrder(s, u.1);
        AfterThen(Outside, Outside, u.0, AllEvents(s, u.1));
      } else if st.At(N_UNDF) && s.unitized {
        AllInOrder(s, st.Skip().(base := st.nextBase, nextBase := st.rest[0].value));
      } else {
        AllInOrder(s, st.Skip());
      }
    }
  }

  // ----- A handler that may stop the reader

  /** Whether a handler goes on after the callbacks so far. */
  type Answer = seq<Event> -> bool

  /** What a handler has heard once `evs` are reported to it one by one after `t`,
      and whether it let the reader go on to the end. */
  ghost function Heard(answer: Answer, t: seq<Event>, evs: seq<Event>): (seq<Event>, bool)
    decreases |evs|
  {
    if evs == [] then (t, true)
    else if answer(t + [evs[0]]) then Heard(answer, t + [evs[0]], evs[1..])
    else (t + [evs[0]], false)
  }

  lemma {:induction false} HeardConcat(answer: Answer, t: seq<Event>, a: seq<Event>, b: seq<Event>)
    ensures var h := Heard(answer, t, a);
            Heard(answer, t, a + b) == if h.1 then Heard(answer, h.0, b) else h
    decreases |a|
  {
    if a == [] {
      assert a + b == b;
    } else {
      assert (a + b)[1..] == a[1..] + b;
      HeardConcat(answer, t + [a[0]], a[1..], b);
    }
  }

  /** A handler hears everything, or exactly up to the first callback it refuses. */
  lemma {:induction false} HeardExact(answer: Answer, t: seq<Event>, evs: seq<Event>) returns (n: nat)
    ensures n <= |evs| && Heard(answer, t, evs).0 == t + evs[..n]
    ensures forall k :: 0 < k < n ==> answer(t + evs[..k])
    ensures Heard(answer, t, evs).1 ==> n == |evs| && (n > 0 ==> answer(t + evs))
    ensures !Heard(answer, t, evs).1 ==> 0 < n && !answer(t + evs[..n])
    decreases |evs|
  {
    if evs == [] {
      n := 0;
      assert t + evs[..0] == t;
    } else {
      assert evs[..1] == [evs[0]];
      if answer(t + [evs[0]]) {
        var m := HeardExact(answer, t + [evs[0]], evs[1..]);
        n := m + 1;
        forall k | 0 < k <= |evs|
          ensures t + evs[..k] == t + [evs[0]] + evs[1..][..k - 1]
        {
        }
        assert evs[..|evs|] == evs && evs[1..][..|evs| - 1] == evs[1..];
      } else {
        n := 1;
      }
    }
  }

  /** For every handler and every entries: what is heard is in order, and leaves
      nothing open if the handler never stopped the reader. */
  lemma HeardInOrder(answer: Answer, s: Sections, st: State)
    ensures var h := Heard(answer, [], AllEvents(s, st));
            After(Outside, h.0).Some? && (h.1 ==> After(Outside, h.0) == Some(Outside))
  {
    var evs := AllEvents(s, st);
    AllInOrder(s, st);
    var n := HeardExact(answer, [], evs);
    assert [] + evs[..n] == evs[..n];
    AllowedPrefix(Outside, evs, n);
    assert evs[..|evs|] == evs;
  }
}
