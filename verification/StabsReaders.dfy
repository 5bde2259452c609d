/** The STABS reader, whose methods walk the entries and call the handler. */
module StabsReaders {
  import opened Machine
  import opened StabsEntries
  import opened StabsEvents

  lemma HeardStep(answer: Answer, t: seq<Event>, e: Event, rest: seq<Event>)
    ensures Heard(answer, t, [e] + rest) == if answer(t + [e]) then Heard(answer, t + [e], rest) else (t + [e], false)
  {
    assert ([e] + rest)[1..] == rest;
  }

  lemma HeardLast(answer: Answer, t: seq<Event>, e: Event)
    ensures Heard(answer, t, [e]) == (t + [e], answer(t + [e]))
  {
    assert [e] == [e] + [];
    HeardStep(answer, t, e, []);
  }

  /** `StabsReader` with a handler that answers by `answer`. */
  class StabsReader {
    const sections: Sections
    const answer: Answer
    const entries: EntryIterator
    var base: U64
    var nextBase: U64
    var file: nat
    var queued: seq<QueuedLine>
    /** The callbacks made so far. */
    var trace: seq<Event>

    ghost predicate Valid()
      reads this, entries, entries.cursor
    {
      entries.Valid() && entries.atEnd == !entries.cursor.complete
    }

    ghost function Here(): State
      requires Valid()
      reads this, entries, entries.cursor
    {
      State(entries.Rest(), base, nextBase, file, queued)
    }

    constructor (stab: seq<Byte>, stabstr: seq<Byte>, big: bool, valueSize: nat, unitized: bool, answer: Answer)
      requires valueSize == 4 || valueSize == 8
      ensures Valid() && fresh(entries) && fresh(entries.cursor)
      ensures sections == Sections(stabstr, unitized) && this.answer == answer && trace == []
      ensures Here() == State(Entries(stab, big, valueSize), 0, 0, 0, [])
    {
      sections := Sections(stabstr, unitized);
      this.answer := answer;
      entries := new EntryIterator(stab, big, valueSize);
      base, nextBase, file, queued, trace := 0, 0, 0, [], [];
    }

    /** Calls the handler. */
    method Report(e: Event) returns (ok: bool)
      modifies this`trace
      ensures trace == old(trace) + [e] && ok == answer(trace)
    {
      trace := trace + [e];
      ok := answer(trace);
    }

    method Skip()
      requires Valid() && !entries.atEnd
      modifies entries, entries.cursor
      ensures Valid() && Here() == old(Here()).Skip()
    {
      entries.Advance();
    }

    /** The lines seen before a function. */
    method ReportQueued() returns (ok: bool)
      modifies this`trace
      ensures (trace, ok) == Heard(answer, old(trace), Queued(queued))
    {
      for i := 0 to |queued|
        invariant Heard(answer, old(trace), Queued(queued)) == Heard(answer, trace, Queued(queued[i..]))
      {
        var l := queued[i];
        assert queued[i..][1..] == queued[i + 1..];
        HeardStep(answer, trace, LineAt(l.address, l.file, l.number), Queued(queued[i + 1..]));
        ok := Report(LineAt(l.address, l.file, l.number));
        if !ok {
          return;
        }
      }
      ok := true;
    }

    /** The loop of `ProcessFunction` and what follows it. */
    method FinishFunction(start: U64) returns (ok: bool)
      requires Valid()
      modifies this, entries, entries.cursor
      ensures Valid()
      ensures var r := FunctionRest(sections, old(Here()), start);
              (trace, ok) == Heard(answer, old(trace), r.0) && (ok ==> Here() == r.1)
    {
      ghost var whole := FunctionRest(sections, Here(), start);
      while !entries.atEnd && entries.entry.kind != N_SO && entries.entry.kind != N_FUN
        invariant Valid()
        invariant Heard(answer, old(trace), whole.0) == Heard(answer, trace, FunctionRest(sections, Here(), start).0)
        invariant whole.1 == FunctionRest(sections, Here(), start).1
        decreases |Here().rest|
      {
        var e := entries.entry;
        ghost var st := Here();
        assert st.rest[0] == e;
        if e.kind == N_SLINE {
          ghost var more := FunctionRest(sections, st.Skip(), start);
          HeardStep(answer, trace, LineAt(Add64(start, e.value), file, e.descriptor), more.0);
          ok := Report(LineAt(Add64(start, e.value), file, e.descriptor));
          if !ok {
            return;
          }
        } else if e.kind == N_SOL {
          file := sections.Symbol(base, e);
        }
        Skip();
      }
      var end: U64 := 0;
      ghost var st := Here();
      if !entries.atEnd {
        var e := entries.entry;
        assert st.rest[0] == e;
        if e.kind == N_FUN {
          if sections.Text(sections.Symbol(base, e)) == [] {
            end := Add64(start, e.value);
            Skip();
          } else {
            end := e.value;
          }
        } else {
          end := e.value;
        }
      }
      HeardLast(answer, trace, EndFunction(end));
      ok := Report(EndFunction(end));
    }

    method ProcessFunction() returns (ok: bool)
      requires Valid() && Here().At(N_FUN)
      modifies this, entries, entries.cursor
      ensures Valid()
      ensures var r := FunctionRun(sections, old(Here()));
              (trace, ok) == Heard(answer, old(trace), r.0) && (ok ==> Here() == r.1)
    {
      ghost var st := Here();
      var e := entries.entry;
      assert st.rest[0] == e;
      var title := Until(sections.Text(sections.Symbol(base, e)), COLON);
      ghost var r := FunctionRest(sections, st.Skip().Clear(), e.value);
      HeardStep(answer, trace, StartFunction(title, e.value), Queued(queued) + r.0);
      ok := Report(StartFunction(title, e.value));
      if !ok {
        return;
      }
      HeardConcat(answer, trace, Queued(queued), r.0);
      Skip();
      ok := ReportQueued();
      if !ok {
        return;
      }
      queued := [];
      ok := FinishFunction(e.value);
    }

    /** The loop of `ProcessCompilationUnit` and what follows it. */
    method FinishUnit() returns (ok: bool)
      requires Valid()
      modifies this, entries, entries.cursor
      ensures Valid()
      ensures var r := UnitRest(sections, old(Here()));
              (trace, ok) == Heard(answer, old(trace), r.0) && (ok ==> Here() == r.1)
    {
      ghost var whole := UnitRest(sections, Here());
      while !entries.atEnd && entries.entry.kind != N_SO
        invariant Valid()
        invariant Heard(answer, old(trace), whole.0) == Heard(answer, trace, UnitRest(sections, Here()).0)
        invariant whole.1 == UnitRest(sections, Here()).1
        decreases |Here().rest|
      {
        var e := entries.entry;
        ghost var st := Here();
        assert st.rest[0] == e;
        if e.kind == N_FUN {
          ghost var f := FunctionRun(sections, st);
          HeardConcat(answer, trace, f.0, UnitRest(sections, f.1).0);
          ok := ProcessFunction();
          if !ok {
            return;
          }
        } else {
          if e.kind == N_SLINE {
            queued := queued + [QueuedLine(e.value, file, e.descriptor)];
          } else if e.kind == N_SOL {
            file := sections.Symbol(base, e);
          }
          Skip();
        }
      }
      var end: U64 := 0;
      ghost var st := Here();
      if !entries.atEnd {
        var e := entries.entry;
        assert st.rest[0] == e;
        if sections.Text(sections.Symbol(base, e)) == [] {
          end := e.value;
          Skip();
        }
      }
      HeardLast(answer, trace, EndUnit(end));
      ok := Report(EndUnit(end));
      if ok {
        queued := [];
      }
    }

    method ProcessCompilationUnit() returns (ok: bool)
      requires Valid() && Here().At(N_SO)
      modifies this, entries, entries.cursor
      ensures Valid()
      ensures var r := UnitRun(sections, old(Here()));
              (trace, ok) == Heard(answer, old(trace), r.0) && (ok ==> Here() == r.1)
    {
      assert Here().rest[0] == entries.entry;
      var name := sections.Symbol(base, entries.entry);
      var directory := None;
      if IsDirectory(sections.Text(name)) {
        directory := Some(name);
        Skip();
      }
      ghost var st := Here();
      if entries.atEnd || entries.entry.kind != N_SO {
        return true;
      }
      var e := entries.entry;
      assert st.rest[0] == e;
      name := sections.Symbol(base, e);
      if sections.Text(name) == [] {
        Skip();
        return true;
      }
      file := name;
      HeardStep(answer, trace, StartUnit(name, e.value, directory), UnitRest(sections, st.Skip().(file := name)).0);
      ok := Report(StartUnit(name, e.value, directory));
      if !ok {
        return;
      }
      Skip();
      ok := FinishUnit();
    }

    /** `Process`: the handler hears the callbacks due, up to the first it refuses. */
    method Process() returns (ok: bool)
      requires Valid()
      modifies this, entries, entries.cursor
      ensures Valid() && (trace, ok) == Heard(answer, old(trace), AllEvents(sections, old(Here())))
    {
      ghost var whole := AllEvents(sections, Here());
      while !entries.atEnd
        invariant Valid()
        invariant Heard(answer, old(trace), whole) == Heard(answer, trace, AllEvents(sections, Here()))
        decreases |Here().rest|
      {
        var e := entries.entry;
        ghost var st := Here();
        assert st.rest[0] == e;
        if e.kind == N_SO {
          ghost var u := UnitRun(sections, st);
          HeardConcat(answer, trace, u.0, AllEvents(sections, u.1));
          ok := ProcessCompilationUnit();
          if !ok {
            return;
          }
        } else {
          if e.kind == N_UNDF && sections.unitized {
            base, nextBase := nextBase, e.value;
          }
          Skip();
        }
      }
      ok := true;
    }
  }

  /** Reading a section of any bytes with any handler: it ends, and the callbacks
      made are in order; they leave nothing open if no callback stopped it. */
  method ReadSection(stab: seq<Byte>, stabstr: seq<Byte>, big: bool, valueSize: nat, unitized: bool, answer: Answer)
    returns (ok: bool, trace: seq<Event>)
    requires valueSize == 4 || valueSize == 8
    ensures (trace, ok) ==
            Heard(answer, [], AllEvents(Sections(stabstr, unitized), State(Entries(stab, big, valueSize), 0, 0, 0, [])))
    ensures After(Outside, trace).Some? && (ok ==> After(Outside, trace) == Some(Outside))
  {
    var reader := new StabsReader(stab, stabstr, big, valueSize, unitized, answer);
    HeardInOrder(answer, reader.sections, reader.Here());
    ok := reader.Process();
    trace := reader.trace;
  }
}
