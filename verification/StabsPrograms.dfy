/** What a section says, read as a program: compilation units of functions of lines,
    and the callbacks it should lead to, by the places of its entries.
 */
module StabsPrograms {
  import opened Machine
  import opened StabsEntries
  import opened StabsEvents
  import opened StabsLayout

  // ----- Names

  /** A name is looked up from the beginning of its unit's strings; one that would lie
      outside the section becomes the empty string at its beginning. */
  lemma SymbolPlace(s: Sections, base: U64, e: Entry)
    ensures base + e.name < TWO_64 ==> s.Symbol(base, e) == if base + e.name < |s.strings| then base + e.name else 0
  {
  }

  /** A text runs up to the first stop, or to the end. */
  lemma {:induction false} UntilExact(s: seq<Byte>, stop: Byte)
    ensures var t := Until(s, stop);
            t <= s && stop !in t && (t == s || s[|t|] == stop)
  {
    if s != [] && s[0] != stop {
      UntilExact(s[1..], stop);
    }
  }

  function Name(s: Sections, base: U64, e: Entry): seq<Byte>
  {
    s.Text(s.Symbol(base, e))
  }

  predicate Blank(s: Sections, base: U64, e: Entry)
  {
    Name(s, base, e) == []
  }

  // ----- Lines

  /** Entries that start or end neither a function nor a unit. */
  predicate Inner(es: seq<Entry>)
  {
    forall i :: 0 <= i < |es| ==> es[i].kind != N_SO && es[i].kind != N_FUN
  }

  /** The file named last by the entries; `file` if they name none. */
  function FileAfter(s: Sections, base: U64, file: nat, es: seq<Entry>): nat
    decreases |es|
  {
    if es == [] then file
    else
      var e := es[|es| - 1];
      if e.kind == N_SOL then s.Symbol(base, e) else FileAfter(s, base, file, es[..|es| - 1])
  }

  /** The lines the entries tell of, counted from `start`: each in the file named last
      before it. */
  function Lines(s: Sections, base: U64, file: nat, es: seq<Entry>, start: U64): seq<Event>
    decreases |es|
  {
    if es == [] then []
    else
      var e, before := es[|es| - 1], es[..|es| - 1];
      Lines(s, base, file, before, start)
      + if e.kind == N_SLINE then [LineAt(Add64(start, e.value), FileAfter(s, base, file, before), e.descriptor)] else []
  }

  // ----- Functions

  /** A function: its N_FUN entry, what follows, and a nameless N_FUN entry that tells
      its size, if there is one. */
  datatype Func = Func(head: Entry, body: seq<Entry>, tail: Option<Entry>)

  /** A function, and the entries before it that belong to none. */
  datatype Part = Part(loose: seq<Entry>, func: Func)

  function Optional(e: Option<Entry>): seq<Entry>
  {
    if e.Some? then [e.value] else []
  }

  /** The entries of a function, and then `rest`. */
  function FuncThen(f: Func, rest: seq<Entry>): seq<Entry>
  {
    [f.head] + (f.body + (Optional(f.tail) + rest))
  }

  function PartsThen(ps: seq<Part>, rest: seq<Entry>): seq<Entry>
  {
    if ps == [] then rest else ps[0].loose + FuncThen(ps[0].func, PartsThen(ps[1..], rest))
  }

  /** A function without a terminator lasts until the next function or unit. */
  predicate FuncOk(s: Sections, base: U64, f: Func, rest: seq<Entry>)
  {
    && f.head.kind == N_FUN && Inner(f.body)
    && match f.tail
       case Some(t) => t.kind == N_FUN && Blank(s, base, t)
       case None => rest == [] || rest[0].kind == N_SO || (rest[0].kind == N_FUN && !Blank(s, base, rest[0]))
  }

  predicate PartsOk(s: Sections, base: U64, ps: seq<Part>, rest: seq<Entry>)
  {
    ps == [] || (Inner(ps[0].loose) && FuncOk(s, base, ps[0].func, PartsThen(ps[1..], rest)) && PartsOk(s, base, ps[1..], rest))
  }

  /** Where a function ends: past its size, else where the next function or unit
      begins, else at no known place. */
  function EndOf(f: Func, rest: seq<Entry>): U64
  {
    match f.tail
    case Some(t) => Add64(f.head.value, t.value)
    case None => if rest == [] then 0 else rest[0].value
  }

  /** The callbacks for a function: its name up to the colon; the lines before it, at
      their own addresses; its lines, counted from its start; and its end. */
  function FuncEvents(s: Sections, base: U64, file: nat, p: Part, rest: seq<Entry>): seq<Event>
  {
    var start := p.func.head.value;
    [StartFunction(Until(Name(s, base, p.func.head), COLON), start)]
    + Lines(s, base, file, p.loose, 0)
    + Lines(s, base, FileAfter(s, base, file, p.loose), p.func.body, start)
    + [EndFunction(EndOf(p.func, rest))]
  }

  function FileOf(s: Sections, base: U64, file: nat, p: Part): nat
  {
    FileAfter(s, base, FileAfter(s, base, file, p.loose), p.func.body)
  }

  function PartsEvents(s: Sections, base: U64, file: nat, ps: seq<Part>, rest: seq<Entry>): seq<Event>
    decreases |ps|
  {
    if ps == [] then []
    else
      FuncEvents(s, base, file, ps[0], PartsThen(ps[1..], rest)) + PartsEvents(s, base, FileOf(s, base, file, ps[0]), ps[1..], rest)
  }

  function PartsFile(s: Sections, base: U64, file: nat, ps: seq<Part>): nat
    decreases |ps|
  {
    if ps == [] then file else PartsFile(s, base, FileOf(s, base, file, ps[0]), ps[1..])
  }

  // ----- Units and programs

  /** A compilation unit: an N_SO entry for its directory, if there is one, that of its
      file, its functions, entries after the last of them, and a nameless N_SO entry,
      if there is one. */
  datatype Unit = Unit(directory: Option<Entry>, head: Entry, parts: seq<Part>, loose: seq<Entry>, tail: Option<Entry>)

  /** Outside units, single entries. */
  datatype Chunk = Single(entry: Entry) | Compiled(u: Unit)

  function UnitEnd(u: Unit, rest: seq<Entry>): seq<Entry>
  {
    u.loose + (Optional(u.tail) + rest)
  }

  function UnitThen(u: Unit, rest: seq<Entry>): seq<Entry>
  {
    Optional(u.directory) + ([u.head] + PartsThen(u.parts, UnitEnd(u, rest)))
  }

  function EntriesOf(cs: seq<Chunk>): seq<Entry>
  {
    if cs == [] then []
    else
      match cs[0]
      case Single(e) => [e] + EntriesOf(cs[1..])
      case Compiled(u) => UnitThen(u, EntriesOf(cs[1..]))
  }

  /** A unit without a terminator lasts until the next unit. */
  predicate UnitOk(s: Sections, base: U64, u: Unit, rest: seq<Entry>)
  {
    && u.head.kind == N_SO && !Blank(s, base, u.head)
    && match u.directory {
         case Some(d) => d.kind == N_SO && IsDirectory(Name(s, base, d))
         case None => !IsDirectory(Name(s, base, u.head))
       }
    && PartsOk(s, base, u.parts, UnitEnd(u, rest)) && Inner(u.loose)
    && match u.tail {
         case Some(t) => t.kind == N_SO && Blank(s, base, t)
         case None => rest == [] || (rest[0].kind == N_SO && !Blank(s, base, rest[0]))
       }
  }

  /** An N_SO entry starts no unit if it is nameless, or tells a directory that no file
      follows. */
  predicate SingleOk(s: Sections, base: U64, e: Entry, rest: seq<Entry>)
  {
    e.kind == N_SO ==>
      || Blank(s, base, e)
      || (IsDirectory(Name(s, base, e)) && (rest == [] || rest[0].kind != N_SO || Blank(s, base, rest[0])))
  }

  function UnitEvents(s: Sections, base: U64, u: Unit, rest: seq<Entry>): seq<Event>
  {
    var file := s.Symbol(base, u.head);
    [StartUnit(file, u.head.value, if u.directory.Some? then Some(s.Symbol(base, u.directory.value)) else None)]
    + PartsEvents(s, base, file, u.parts, UnitEnd(u, rest))
    + [EndUnit(if u.tail.Some? then u.tail.value.value else 0)]
  }

  /** The values of the N_UNDF entries before a unit tell where its strings begin: at
      that of the last but one. */
  function BaseAfter(headers: seq<U64>): U64
  {
    if |headers| < 2 then 0 else headers[|headers| - 2]
  }

  function HeadersAfter(s: Sections, headers: seq<U64>, c: Chunk): seq<U64>
  {
    if s.unitized && c.Single? && c.entry.kind == N_UNDF then headers + [c.entry.value] else headers
  }

  predicate ProgramOk(s: Sections, headers: seq<U64>, cs: seq<Chunk>)
    decreases |cs|
  {
    cs == [] ||
    (&& (match cs[0]
         case Single(e) => SingleOk(s, BaseAfter(headers), e, EntriesOf(cs[1..]))
         case Compiled(u) => UnitOk(s, BaseAfter(headers), u, EntriesOf(cs[1..])))
     && ProgramOk(s, HeadersAfter(s, headers, cs[0]), cs[1..]))
  }

  function ProgramEvents(s: Sections, headers: seq<U64>, cs: seq<Chunk>): seq<Event>
    decreases |cs|
  {
    if cs == [] then []
    else
      (if cs[0].Compiled? then UnitEvents(s, BaseAfter(headers), cs[0].u, EntriesOf(cs[1..])) else [])
      + ProgramEvents(s, HeadersAfter(s, headers, cs[0]), cs[1..])
  }

  // ----- The reader reports what the program says

  lemma Regrouped(a: seq<Event>, b: seq<Event>, c: seq<Event>)
    ensures a + (b + c) == a + b + c && a + [] == a && [] + c == c
  {
  }

  /** The entries of a function's body lead to its lines. */
  lemma {:induction false} BodyRuns(s: Sections, st: State, start: U64, body: seq<Entry>, rest: seq<Entry>)
    requires Inner(body) && st.rest == body + rest
    ensures var r := FunctionRest(s, st.(rest := rest, file := FileAfter(s, st.base, st.file, body)), start);
            FunctionRest(s, st, start) == (Lines(s, st.base, st.file, body, start) + r.0, r.1)
    decreases |body|
  {
    if body == [] {
      assert body + rest == rest;
      Regrouped([], [], FunctionRest(s, st, start).0);
    } else {
      var before, e := body[..|body| - 1], body[|body| - 1];
      assert body + rest == before + ([e] + rest);
      BodyRuns(s, st, start, before, [e] + rest);
      var st1 := st.(rest := [e] + rest, file := FileAfter(s, st.base, st.file, before));
      assert st1.Skip().rest == rest;
      assert body[|body| - 1].kind != N_SO && body[|body| - 1].kind != N_FUN;
      Regrouped(Lines(s, st.base, st.file, before, start), [], []);
      if e.kind == N_SLINE {
        var l := [LineAt(Add64(start, e.value), st1.file, e.descriptor)];
        var r := FunctionRest(s, st1.Skip(), start);
        assert FunctionRest(s, st1, start) == (l + r.0, r.1);
        Regrouped(Lines(s, st.base, st.file, before, start), l, r.0);
      }
    }
  }

  lemma {:induction false} QueuedSnoc(ls: seq<QueuedLine>, l: QueuedLine)
    ensures Queued(ls + [l]) == Queued(ls) + [LineAt(l.address, l.file, l.number)]
    decreases |ls|
  {
    if ls == [] {
      assert [] + [l] == [l];
    } else {
      assert (ls + [l])[1..] == ls[1..] + [l];
      QueuedSnoc(ls[1..], l);
    }
  }

  /** Entries outside functions only put lines in the queue and change the file. */
  lemma {:induction false} LooseRuns(s: Sections, st: State, loose: seq<Entry>, rest: seq<Entry>) returns (q: seq<QueuedLine>)
    requires Inner(loose) && st.rest == loose + rest && st.queued == []
    ensures Queued(q) == Lines(s, st.base, st.file, loose, 0)
    ensures UnitRest(s, st) == UnitRest(s, st.(rest := rest, file := FileAfter(s, st.base, st.file, loose), queued := q))
    decreases |loose|
  {
    if loose == [] {
      assert loose + rest == rest;
      q := [];
    } else {
      var before, e := loose[..|loose| - 1], loose[|loose| - 1];
      assert loose + rest == before + ([e] + rest);
      q := LooseRuns(s, st, before, [e] + rest);
      var st1 := st.(rest := [e] + rest, file := FileAfter(s, st.base, st.file, before), queued := q);
      assert st1.Skip().rest == rest;
      assert loose[|loose| - 1].kind != N_SO && loose[|loose| - 1].kind != N_FUN;
      if e.kind == N_SLINE {
        var l := QueuedLine(e.value, st1.file, e.descriptor);
        QueuedSnoc(q, l);
        q := q + [l];
      }
    }
  }

  /** A function's end is where its terminator or the next entry says. */
  lemma EndRuns(s: Sections, st: State, f: Func, rest: seq<Entry>)
    requires FuncOk(s, st.base, f, rest) && st.rest == Optional(f.tail) + rest
    ensures FunctionRest(s, st, f.head.value) == ([EndFunction(EndOf(f, rest))], st.(rest := rest))
  {
    if f.tail.Some? {
      assert st.Skip().rest == rest;
    } else {
      assert Optional(f.tail) + rest == rest;
    }
  }

  lemma FuncRuns(s: Sections, st: State, file: nat, p: Part, rest: seq<Entry>)
    requires FuncOk(s, st.base, p.func, rest) && st.rest == FuncThen(p.func, rest)
    requires st.file == FileAfter(s, st.base, file, p.loose) && Queued(st.queued) == Lines(s, st.base, file, p.loose, 0)
    ensures FunctionRun(s, st) == (FuncEvents(s, st.base, file, p, rest), st.(rest := rest, file := FileOf(s, st.base, file, p), queued := []))
  {
    var f := p.func;
    var start := f.head.value;
    var st1 := st.Skip().Clear();
    assert st1.rest == f.body + (Optional(f.tail) + rest);
    BodyRuns(s, st1, start, f.body, Optional(f.tail) + rest);
    var st2 := st1.(rest := Optional(f.tail) + rest, file := FileOf(s, st.base, file, p));
    EndRuns(s, st2, f, rest);
    var title := [StartFunction(FunctionTitle(s, st), start)];
    FuncParts(title, Queued(st.queued), Lines(s, st.base, st.file, f.body, start), FunctionRest(s, st2, start).0);
  }

  lemma FuncParts(a: seq<Event>, b: seq<Event>, c: seq<Event>, d: seq<Event>)
    ensures a + (b + (c + d)) == a + b + c + d
  {
  }

  lemma {:induction false} PartsRun(s: Sections, st: State, ps: seq<Part>, rest: seq<Entry>)
    requires PartsOk(s, st.base, ps, rest) && st.rest == PartsThen(ps, rest) && st.queued == []
    ensures var r := UnitRest(s, st.(rest := rest, file := PartsFile(s, st.base, st.file, ps)));
            UnitRest(s, st) == (PartsEvents(s, st.base, st.file, ps, rest) + r.0, r.1)
    decreases |ps|
  {
    if ps == [] {
      assert st == st.(rest := rest, file := PartsFile(s, st.base, st.file, ps));
      Regrouped([], [], UnitRest(s, st).0);
    } else {
      var p, after := ps[0], PartsThen(ps[1..], rest);
      var q := LooseRuns(s, st, p.loose, FuncThen(p.func, after));
      var st1 := st.(rest := FuncThen(p.func, after), file := FileAfter(s, st.base, st.file, p.loose), queued := q);
      FuncRuns(s, st1, st.file, p, after);
      var st2 := FunctionRun(s, st1).1;
      PartsRun(s, st2, ps[1..], rest);
      Regrouped(FuncEvents(s, st.base, st.file, p, after), PartsEvents(s, st.base, st2.file, ps[1..], rest),
                UnitRest(s, st2.(rest := rest, file := PartsFile(s, st.base, st2.file, ps[1..]))).0);
    }
  }

  lemma UnitEndRuns(s: Sections, st: State, u: Unit, rest: seq<Entry>)
    requires UnitOk(s, st.base, u, rest) && st.rest == UnitEnd(u, rest) && st.queued == []
    ensures UnitRest(s, st).0 == [EndUnit(if u.tail.Some? then u.tail.value.value else 0)]
    ensures UnitRest(s, st).1 == st.(rest := rest, file := FileAfter(s, st.base, st.file, u.loose))
  {
    var q := LooseRuns(s, st, u.loose, Optional(u.tail) + rest);
    var st1 := st.(rest := Optional(u.tail) + rest, file := FileAfter(s, st.base, st.file, u.loose), queued := q);
    if u.tail.Some? {
      assert st1.Skip().rest == rest;
    } else {
      assert st1.rest == rest;
    }
  }

  lemma UnitRuns(s: Sections, st: State, u: Unit, rest: seq<Entry>)
    requires UnitOk(s, st.base, u, rest) && st.rest == UnitThen(u, rest) && st.queued == []
    ensures st.At(N_SO)
    ensures var r := UnitRun(s, st);
            r.0 == UnitEvents(s, st.base, u, rest) && r.1 == st.(rest := rest, file := r.1.file)
  {
    var body := PartsThen(u.parts, UnitEnd(u, rest));
    var file := s.Symbol(st.base, u.head);
    if u.directory.Some? {
      assert st.Skip().rest == [u.head] + body;
    } else {
      assert st.rest == [u.head] + body;
    }
    var st1 := if u.directory.Some? then st.Skip() else st;
    assert st1.rest == [u.head] + body;
    assert st1.Skip().rest == body;
    var st2 := st1.Skip().(file := file);
    PartsRun(s, st2, u.parts, UnitEnd(u, rest));
    var st3 := st2.(rest := UnitEnd(u, rest), file := PartsFile(s, st.base, file, u.parts));
    UnitEndRuns(s, st3, u, rest);
    var start := [StartUnit(file, u.head.value, if u.directory.Some? then Some(s.Symbol(st.base, u.directory.value)) else None)];
    Regrouped(start, PartsEvents(s, st.base, file, u.parts, UnitEnd(u, rest)), UnitRest(s, st3).0);
  }

  /** Between units: nothing queued, and the strings begin where the headers say. */
  predicate Ready(st: State, headers: seq<U64>)
  {
    st.queued == [] && st.base == BaseAfter(headers) && st.nextBase == (if headers == [] then 0 else headers[|headers| - 1])
  }

  lemma SingleRuns(s: Sections, st: State, headers: seq<U64>, e: Entry, rest: seq<Entry>) returns (next: State)
    requires Ready(st, headers) && st.rest == [e] + rest && SingleOk(s, st.base, e, rest)
    ensures Ready(next, HeadersAfter(s, headers, Single(e))) && next.rest == rest
    ensures AllEvents(s, st) == AllEvents(s, next)
  {
    next := st.Skip();
    assert next.rest == rest;
    if e.kind == N_UNDF && s.unitized {
      next := next.(base := st.nextBase, nextBase := e.value);
    } else if e.kind == N_SO {
      Regrouped([], [], AllEvents(s, next));
      if IsDirectory(Name(s, st.base, e)) && next.At(N_SO) {
        assert UnitRun(s, st) == ([], next.Skip());
        assert UnitRun(s, next) == ([], next.Skip());
      } else {
        assert UnitRun(s, st) == ([], next);
      }
    }
  }

  /** The callbacks for a section are those of the program it is. */
  lemma {:induction false} ProgramRuns(s: Sections, st: State, headers: seq<U64>, cs: seq<Chunk>)
    requires Ready(st, headers) && ProgramOk(s, headers, cs) && st.rest == EntriesOf(cs)
    ensures AllEvents(s, st) == ProgramEvents(s, headers, cs)
    decreases |cs|
  {
    if cs != [] {
      var rest := EntriesOf(cs[1..]);
      match cs[0]
      case Single(e) =>
        var next := SingleRuns(s, st, headers, e, rest);
        ProgramRuns(s, next, HeadersAfter(s, headers, cs[0]), cs[1..]);
        Regrouped([], [], AllEvents(s, next));
      case Compiled(u) =>
        UnitRuns(s, st, u, rest);
        ProgramRuns(s, UnitRun(s, st).1, headers, cs[1..]);
    }
  }

  /** From the bytes of a program's entries to its callbacks, in either byte order. */
  lemma SectionRuns(s: Sections, cs: seq<Chunk>, big: bool, valueSize: nat, rest: seq<Byte>)
    requires ProgramOk(s, [], cs) && valueSize <= 8 && |rest| < EntrySize(valueSize)
    requires forall i :: 0 <= i < |EntriesOf(cs)| ==> Fits(EntriesOf(cs)[i], valueSize)
    ensures var b := AllBytes(EntriesOf(cs), big, valueSize) + rest;
            AllEvents(s, State(Entries(b, big, valueSize), 0, 0, 0, [])) == ProgramEvents(s, [], cs)
  {
    SectionReads(EntriesOf(cs), big, valueSize, rest);
    ProgramRuns(s, State(EntriesOf(cs), 0, 0, 0, []), [], cs);
  }

  // ----- Every section is a program

  lemma {:induction false} SplitInner(es: seq<Entry>) returns (inner: seq<Entry>, rest: seq<Entry>)
    ensures es == inner + rest && Inner(inner)
    ensures rest == [] || rest[0].kind == N_SO || rest[0].kind == N_FUN
    decreases |es|
  {
    if es == [] || es[0].kind == N_SO || es[0].kind == N_FUN {
      inner, rest := [], es;
    } else {
      inner, rest := SplitInner(es[1..]);
      inner := [es[0]] + inner;
    }
  }

  lemma SplitFunc(s: Sections, base: U64, es: seq<Entry>) returns (f: Func, rest: seq<Entry>)
    requires es != [] && es[0].kind == N_FUN
    ensures es == FuncThen(f, rest) && FuncOk(s, base, f, rest) && |rest| < |es|
  {
    var body, after := SplitInner(es[1..]);
    if after != [] && after[0].kind == N_FUN && Blank(s, base, after[0]) {
      f, rest := Func(es[0], body, Some(after[0])), after[1..];
    } else {
      f, rest := Func(es[0], body, None), after;
    }
    assert Optional(f.tail) + rest == after;
  }

  lemma {:induction false} SplitParts(s: Sections, base: U64, es: seq<Entry>)
    returns (ps: seq<Part>, loose: seq<Entry>, rest: seq<Entry>)
    ensures es == PartsThen(ps, loose + rest) && PartsOk(s, base, ps, loose + rest) && Inner(loose)
    ensures rest == [] || rest[0].kind == N_SO
    ensures |rest| <= |es|
    decreases |es|
  {
    ps := [];
    loose, rest := SplitInner(es);
    if rest != [] && rest[0].kind == N_FUN {
      var before := loose;
      var f, after := SplitFunc(s, base, rest);
      var p: seq<Part>;
      p, loose, rest := SplitParts(s, base, after);
      ps := [Part(before, f)] + p;
      assert ps[1..] == p;
    }
  }

  lemma SplitUnitBody(s: Sections, base: U64, directory: Option<Entry>, head: Entry, es: seq<Entry>) returns (u: Unit, rest: seq<Entry>)
    ensures u == Unit(directory, head, u.parts, u.loose, u.tail) && |rest| <= |es|
    ensures es == PartsThen(u.parts, UnitEnd(u, rest)) && PartsOk(s, base, u.parts, UnitEnd(u, rest)) && Inner(u.loose)
    ensures match u.tail
            case Some(t) => t.kind == N_SO && Blank(s, base, t)
            case None => rest == [] || (rest[0].kind == N_SO && !Blank(s, base, rest[0]))
  {
    var ps, loose, after := SplitParts(s, base, es);
    if after != [] && Blank(s, base, after[0]) {
      u, rest := Unit(directory, head, ps, loose, Some(after[0])), after[1..];
    } else {
      u, rest := Unit(directory, head, ps, loose, None), after;
    }
    assert Optional(u.tail) + rest == after;
  }

  lemma SplitUnit(s: Sections, base: U64, es: seq<Entry>) returns (u: Unit, rest: seq<Entry>)
    requires es != [] && es[0].kind == N_SO && !SingleOk(s, base, es[0], es[1..])
    ensures es == UnitThen(u, rest) && UnitOk(s, base, u, rest) && |rest| < |es|
  {
    if IsDirectory(Name(s, base, es[0])) {
      u, rest := SplitUnitBody(s, base, Some(es[0]), es[1], es[2..]);
      assert es == [es[0]] + ([es[1]] + es[2..]);
    } else {
      u, rest := SplitUnitBody(s, base, None, es[0], es[1..]);
      assert es == [] + ([es[0]] + es[1..]);
    }
  }

  lemma {:induction false} EverySectionIsProgram(s: Sections, headers: seq<U64>, es: seq<Entry>) returns (cs: seq<Chunk>)
    ensures EntriesOf(cs) == es && ProgramOk(s, headers, cs)
    decreases |es|
  {
    if es == [] {
      cs := [];
    } else if SingleOk(s, BaseAfter(headers), es[0], es[1..]) {
      var c := Single(es[0]);
      var tail := EverySectionIsProgram(s, HeadersAfter(s, headers, c), es[1..]);
      cs := [c] + tail;
      assert cs[1..] == tail;
    } else {
      var u, rest := SplitUnit(s, BaseAfter(headers), es);
      var tail := EverySectionIsProgram(s, headers, rest);
      cs := [Compiled(u)] + tail;
      assert cs[1..] == tail;
    }
  }

  // ----- An example

  const EXAMPLE_BODY := [Entry(1, 0x84, 0, 0, 0), Entry(0, 0x44, 0, 7, 4)]
  const EXAMPLE_PART := Part([], Func(Entry(3, 0x24, 0, 0, 0x1000), EXAMPLE_BODY, Some(Entry(0, 0x24, 0, 0, 0x20))))
  const EXAMPLE_UNIT := Unit(Some(Entry(8, 0x64, 0, 0, 0)), Entry(1, 0x64, 0, 0, 0x800), [EXAMPLE_PART], [], Some(Entry(0, 0x64, 0, 0, 0x2000)))

  lemma ExampleEntries()
    ensures UnitThen(EXAMPLE_UNIT, []) ==
      [Entry(8, 0x64, 0, 0, 0), Entry(1, 0x64, 0, 0, 0x800), Entry(3, 0x24, 0, 0, 0x1000), Entry(1, 0x84, 0, 0, 0), Entry(0, 0x44, 0, 7, 4),
       Entry(0, 0x24, 0, 0, 0x20), Entry(0, 0x64, 0, 0, 0x2000)]
    ensures UnitEnd(EXAMPLE_UNIT, []) == [Entry(0, 0x64, 0, 0, 0x2000)]
  {
    var end := [Entry(0, 0x64, 0, 0, 0x2000)];
    assert UnitEnd(EXAMPLE_UNIT, []) == end;
    assert [EXAMPLE_PART][1..] == [];
    assert PartsThen([], end) == end;
    assert PartsThen([EXAMPLE_PART], end) == FuncThen(EXAMPLE_PART.func, end);
  }

  lemma ExampleLines(s: Sections)
    requires 1 < |s.strings|
    ensures Lines(s, 0, 1, EXAMPLE_BODY, 0x1000) == [LineAt(0x1004, 1, 7)]
  {
    var body := EXAMPLE_BODY;
    assert body[..1] == [body[0]] && [body[0]][..0] == [];
    assert Lines(s, 0, 1, [body[0]], 0x1000) == [];
  }

  lemma ExampleEvents(s: Sections, rest: seq<Entry>)
    requires 1 < |s.strings| && Name(s, 0, Entry(3, 0x24, 0, 0, 0x1000)) == [0x66, 0x3A, 0x46]
    ensures PartsEvents(s, 0, 1, [EXAMPLE_PART], rest) == [StartFunction([0x66], 0x1000), LineAt(0x1004, 1, 7), EndFunction(0x1020)]
  {
    ExampleLines(s);
    assert [0x66, 0x3A, 0x46][1..] == [0x3A, 0x46];
    assert Until([0x66, 0x3A, 0x46], COLON) == [0x66];
    assert [EXAMPLE_PART][1..] == [];
    assert PartsEvents(s, 0, FileOf(s, 0, 1, EXAMPLE_PART), [], rest) == [];
  }

  predicate ExampleNames(s: Sections)
  {
    && 8 < |s.strings|
    && Name(s, 0, Entry(8, 0x64, 0, 0, 0)) == [0x64, 0x2F] && Name(s, 0, Entry(1, 0x64, 0, 0, 0x800)) == [0x61]
    && Name(s, 0, Entry(3, 0x24, 0, 0, 0x1000)) == [0x66, 0x3A, 0x46]
    && Blank(s, 0, Entry(0, 0x24, 0, 0, 0x20)) && Blank(s, 0, Entry(0, 0x64, 0, 0, 0x2000))
  }

  lemma ExampleIsUnit(s: Sections)
    requires ExampleNames(s)
    ensures UnitOk(s, 0, EXAMPLE_UNIT, [])
  {
    var end := UnitEnd(EXAMPLE_UNIT, []);
    assert [EXAMPLE_PART][1..] == [];
    assert FuncOk(s, 0, EXAMPLE_PART.func, PartsThen([], end));
    assert PartsOk(s, 0, [EXAMPLE_PART], end);
  }

  lemma ThreeEvents(a: Event, b: seq<Event>, c: Event)
    requires |b| == 3
    ensures [a] + b + [c] == [a, b[0], b[1], b[2], c]
  {
  }

  /** A unit with a function at 0x1000, a line of it four bytes on, its size, and the
      end of the unit. */
  lemma ExampleRuns(s: Sections)
    requires ExampleNames(s)
    ensures var es := [Entry(8, 0x64, 0, 0, 0), Entry(1, 0x64, 0, 0, 0x800), Entry(3, 0x24, 0, 0, 0x1000), Entry(1, 0x84, 0, 0, 0),
                       Entry(0, 0x44, 0, 7, 4), Entry(0, 0x24, 0, 0, 0x20), Entry(0, 0x64, 0, 0, 0x2000)];
            UnitRun(s, State(es, 0, 0, 0, [])).0
            == [StartUnit(1, 0x800, Some(8)), StartFunction([0x66], 0x1000), LineAt(0x1004, 1, 7), EndFunction(0x1020), EndUnit(0x2000)]
  {
    var u, end := EXAMPLE_UNIT, UnitEnd(EXAMPLE_UNIT, []);
    ExampleEntries();
    ExampleIsUnit(s);
    UnitRuns(s, State(UnitThen(u, []), 0, 0, 0, []), u, []);
    ExampleEvents(s, end);
    ThreeEvents(StartUnit(1, 0x800, Some(8)), PartsEvents(s, 0, 1, [EXAMPLE_PART], end), EndUnit(0x2000));
  }
}
