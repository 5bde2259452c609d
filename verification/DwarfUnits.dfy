/** Where the sweep's input comes from: the line program's calls to `AddLine`
    and the function entries that `FuncHandler::Finish` accepts.
 */
module DwarfUnits {
  import opened Machine
  import opened LineTables
  import opened LineSweep

  // ----- Lines

  /** One call to `AddLine`. */
  datatype LineCall = LineCall(address: U64, length: U64, file: int, number: int) {
    /** Where the line ends once clipped to the address space. */
    function End(): int { Min(address + length, TWO_64) }
  }

  datatype LineState = LineState(lines: seq<Line>, omittedEnd: U64)

  /** What one call does to the lines collected and to `omitted_line_end_`. */
  function AddStep(files: map<int, string>, s: LineState, c: LineCall): LineState
  {
    if c.length == 0 then s
    else
      var length := if Add64(c.address, c.length) < c.address then Sub64(0, c.address) else c.length;
      if c.address == 0 || c.address == s.omittedEnd then s.(omittedEnd := Add64(c.address, length))
      else if c.file !in files then s.(omittedEnd := 0)
      else LineState(s.lines + [Line(c.address, length, files[c.file], c.number)], 0)
  }

  class DwarfLineToModule {
    const files: map<int, string>
    var lines: seq<Line>
    var omittedLineEnd: U64

    constructor (files: map<int, string>)
      ensures this.files == files && lines == [] && omittedLineEnd == 0
    {
      this.files, lines, omittedLineEnd := files, [], 0;
    }

    method AddLine(address: U64, length: U64, fileNum: int, lineNum: int)
      requires forall l :: l in lines ==> l.Span().Good()
      modifies this
      ensures LineState(lines, omittedLineEnd) ==
              AddStep(files, old(LineState(lines, omittedLineEnd)), LineCall(address, length, fileNum, lineNum))
      ensures forall l :: l in lines ==> l.Span().Good()
    {
      if length == 0 {
        return;
      }
      var len := length;
      if Add64(address, length) < address {
        len := Sub64(0, address);
      }
      if address == 0 || address == omittedLineEnd {
        omittedLineEnd := Add64(address, len);
        return;
      } else {
        omittedLineEnd := 0;
      }
      if fileNum !in files {
        return;
      }
      lines := lines + [Line(address, len, files[fileNum], lineNum)];
    }
  }

  /** The state after a whole sequence of calls. */
  function Feed(files: map<int, string>, calls: seq<LineCall>): LineState
  {
    if calls == [] then LineState([], 0)
    else AddStep(files, Feed(files, calls[..|calls| - 1]), calls[|calls| - 1])
  }

  /** The calls that are not for empty lines. */
  function Live(calls: seq<LineCall>): (r: seq<LineCall>)
    ensures forall c :: c in r ==> c.length > 0
  {
    if calls == [] then []
    else
      var c := calls[|calls| - 1];
      Live(calls[..|calls| - 1]) + if c.length == 0 then [] else [c]
  }

  /** Calls `j` to `k` describe one contiguous stretch of code from address zero. */
  ghost predicate FromZero(calls: seq<LineCall>, j: int, k: int)
  {
    && 0 <= j <= k < |calls| && calls[j].address == 0
    && forall i :: j <= i < k ==> calls[i + 1].address == calls[i].End()
  }

  /** Call `k` is in a stretch of code that the linker has dropped. */
  ghost predicate Dropped(calls: seq<LineCall>, k: int)
  {
    exists j :: FromZero(calls, j, k)
  }

  /** The lines that should survive `calls`. */
  ghost function Kept(files: map<int, string>, calls: seq<LineCall>): seq<Line>
    requires forall i :: 0 <= i < |calls| ==> calls[i].length > 0
  {
    if calls == [] then []
    else
      var k := |calls| - 1;
      assert FromZero(calls, k, k) <==> calls[k].address == 0;
      Kept(files, calls[..k]) +
      if Dropped(calls, k) || calls[k].file !in files then []
      else
        [Line(calls[k].address, calls[k].End() - calls[k].address, files[calls[k].file], calls[k].number)]
  }

  lemma DroppedNext(calls: seq<LineCall>, k: nat)
    requires 0 < k < |calls| && calls[k].address != 0
    ensures Dropped(calls, k) <==> Dropped(calls[..k], k - 1) && calls[k].address == calls[k - 1].End()
  {
    if Dropped(calls, k) {
      var j :| FromZero(calls, j, k);
      assert calls[k - 1 + 1].address == calls[k - 1].End();
      assert FromZero(calls[..k], j, k - 1);
    }
    if Dropped(calls[..k], k - 1) && calls[k].address == calls[k - 1].End() {
      var j :| FromZero(calls[..k], j, k - 1);
      forall i | j <= i < k
        ensures calls[i + 1].address == calls[i].End()
      {
        assert i < k - 1 ==> calls[..k][i + 1].address == calls[..k][i].End();
      }
      assert FromZero(calls, j, k);
    }
  }

  /** `omitted_line_end_` recognizes the dropped stretches, and the lines
      collected are exactly the others, clipped to the address space. */
  lemma {:induction false} FeedKeeps(files: map<int, string>, calls: seq<LineCall>)
    requires forall i :: 0 <= i < |calls| ==> calls[i].length > 0
    ensures Feed(files, calls).lines == Kept(files, calls)
    ensures Feed(files, calls).omittedEnd ==
            if calls != [] && Dropped(calls, |calls| - 1) then Wrapped(calls[|calls| - 1].End()) else 0
    decreases |calls|
  {
    if calls != [] {
      var k := |calls| - 1;
      FeedKeeps(files, calls[..k]);
      if calls[k].address == 0 {
        assert FromZero(calls, k, k);
      } else if k > 0 {
        DroppedNext(calls, k);
      } else {
        assert !FromZero(calls, 0, 0);
      }
    }
  }

  lemma {:induction false} FeedLive(files: map<int, string>, calls: seq<LineCall>)
    ensures Feed(files, calls) == Feed(files, Live(calls))
    decreases |calls|
  {
    if calls != [] {
      var n := |calls| - 1;
      FeedLive(files, calls[..n]);
      if calls[n].length == 0 {
        assert Live(calls) == Live(calls[..n]);
      } else {
        assert Live(calls)[..|Live(calls)| - 1] == Live(calls[..n]);
      }
    }
  }

  /** Over every run of `AddLine`: an empty line counts for nothing, a line in a
      stretch from address zero is omitted, every other line is kept once. */
  lemma RunKeeps(files: map<int, string>, calls: seq<LineCall>)
    ensures Feed(files, calls).lines == Kept(files, Live(calls))
  {
    FeedLive(files, calls);
    FeedKeeps(files, Live(calls));
  }

  // ----- Functions

  /** A function entry: its `DW_AT_low_pc`, its `DW_AT_high_pc`, and whether the
      latter is an address rather than an offset. */
  datatype Entry = Entry(name: string, low: U64, high: U64, highIsAddress: bool)

  /** The function `FuncHandler::Finish` makes of an entry: the address and size
      of its code, or nothing for an entry without code, one whose end wraps
      around, or one at address zero. */
  function FinishedRange(e: Entry): (r: Option<(U64, U64)>)
    ensures r.Some? <==> 0 < e.low && 0 < e.high &&
                         if e.highIsAddress then e.low < e.high else e.low + e.high < TWO_64
    ensures r.Some? ==> r.value.0 == e.low && Extent(r.value.0, r.value.0 + r.value.1).Good()
    ensures r.Some? ==> r.value.0 + r.value.1 == if e.highIsAddress then e.high else e.low + e.high
  {
    var high := if e.highIsAddress then e.high else Add64(e.high, e.low);
    if e.low < high && e.low != 0 then Some((e.low, Sub64(high, e.low))) else None
  }

  /** The name, address and size of a function. */
  datatype Described = Described(name: string, address: U64, size: U64)

  /** The functions that a sequence of entries makes, in order. */
  function Accepted(entries: seq<Entry>): seq<Described>
  {
    if entries == [] then []
    else
      var n := |entries| - 1;
      var e, before := entries[n], Accepted(entries[..n]);
      match FinishedRange(e)
      case None => before
      case Some((address, size)) =>
        before + [Described(if e.name == "" then "<name omitted>" else e.name, address, size)]
  }

  function Describe(f: Function): Described
  {
    Described(f.name, f.address, f.size)
  }

  /** The functions are those described, in order. */
  ghost predicate AreThose(fs: seq<Function>, ds: seq<Described>)
  {
    |fs| == |ds| && forall i :: 0 <= i < |fs| ==> Describe(fs[i]) == ds[i]
  }

  function Ranges(ds: seq<Described>): (s: seq<Extent>)
    ensures |s| == |ds| && forall i :: 0 <= i < |ds| ==> s[i] == Extent(ds[i].address, ds[i].address + ds[i].size)
  {
    seq(|ds|, i requires 0 <= i < |ds| => Extent(ds[i].address, ds[i].address + ds[i].size))
  }

  /** The whole unit: for every sequence of line calls and of function entries,
      the sweep's preconditions hold, so all its assertions do; if no two accepted
      functions and no two kept lines share a byte, its outcome is exact. */
  method FinishUnit(files: map<int, string>, calls: seq<LineCall>, entries: seq<Entry>)
    returns (fs: seq<Function>, ls: seq<Line>, citedFunctions: seq<nat>, citedLines: seq<nat>,
             ghost functions: seq<Function>, ghost got: seq<seq<Line>>, ghost steps: nat)
    ensures multiset(fs) == multiset(functions) && AreThose(functions, Accepted(entries))
    ensures multiset(ls) == multiset(Kept(files, Live(calls)))
    ensures SweepInput(fs, ls) && |got| == |fs| && forall i :: 0 <= i < |fs| ==> fs[i].lines == got[i]
    ensures Sound(FunctionSpans(fs), ls, got) && steps <= 2 * (|fs| + |ls|)
    ensures Apart(Ranges(Accepted(entries))) && Apart(LineSpans(Kept(files, Live(calls)))) ==>
              Exact(FunctionSpans(fs), ls, Progress(got, citedFunctions, citedLines, None))
  {
    var lines := CollectLines(files, calls);
    var accepted := CollectFunctions(entries);
    functions := accepted;
    assert FunctionSpans(accepted) == Ranges(Accepted(entries));
    fs, ls, citedFunctions, citedLines, got, steps := AssignLinesToFunctions(accepted, lines);
  }

  method CollectLines(files: map<int, string>, calls: seq<LineCall>) returns (lines: seq<Line>)
    ensures lines == Kept(files, Live(calls))
    ensures forall l :: l in lines ==> l.Span().Good()
  {
    var m := new DwarfLineToModule(files);
    for n := 0 to |calls|
      invariant m.files == files
      invariant LineState(m.lines, m.omittedLineEnd) == Feed(files, calls[..n])
      invariant forall l :: l in m.lines ==> l.Span().Good()
    {
      assert calls[..n + 1][..n] == calls[..n];
      m.AddLine(calls[n].address, calls[n].length, calls[n].file, calls[n].number);
    }
    assert calls[..|calls|] == calls;
    RunKeeps(files, calls);
    lines := m.lines;
  }

  method CollectFunctions(entries: seq<Entry>) returns (functions: seq<Function>)
    ensures forall i :: 0 <= i < |functions| ==> fresh(functions[i])
    ensures Distinct(functions)
    ensures forall f :: f in functions ==> f.Span().Good() && f.lines == []
    ensures AreThose(functions, Accepted(entries))
  {
    functions := [];
    for n := 0 to |entries|
      invariant forall i :: 0 <= i < |functions| ==> fresh(functions[i])
      invariant Distinct(functions)
      invariant forall f :: f in functions ==> f.Span().Good() && f.lines == []
      invariant AreThose(functions, Accepted(entries[..n]))
    {
      assert entries[..n + 1][..n] == entries[..n];
      var r := FinishedRange(entries[n]);
      if r.Some? {
        var name := if entries[n].name == "" then "<name omitted>" else entries[n].name;
        var f := new Function(name, r.value.0, r.value.1);
        functions := functions + [f];
      }
    }
    assert entries[..|entries|] == entries;
  }
}
