/** The handler that turns STABS callbacks into functions and lines with sizes. */
module StabsModule {
  import opened Machine
  import opened StabsEntries
  import opened StabsEvents
  import opened StabsReaders
  import opened LineSweep

  datatype SourceLine = SourceLine(address: U64, size: U64, file: nat, number: nat)

  datatype Function = Function(title: seq<Byte>, address: U64, size: U64, lines: seq<SourceLine>)

  const FALLBACK_SIZE: U64 := 0x1000_0000

  // ----- Gathering

  /** What has been gathered so far. */
  datatype Gathered = Gathered(
    functions: seq<Function>, boundaries: seq<U64>, inUnit: bool, unitBase: U64,
    current: Option<Function>, file: Option<nat>)
  {
    /** The handler's own idea of where it is agrees with the callbacks. */
    predicate In(p: Phase)
    {
      inUnit == !p.Outside? && current.Some? == p.InFunction? && file.Some? == inUnit
    }

    /** What the assertions in the callbacks demand. */
    predicate Expects(e: Event)
    {
      match e
      case StartUnit(_, _, _) => !inUnit
      case EndUnit(_) => inUnit
      case StartFunction(_, _) => current.None?
      case EndFunction(_) => current.Some?
      case LineAt(_, _, _) => current.Some? && file.Some?
    }

    function Bound(address: U64): seq<U64>
    {
      if address == 0 then boundaries else boundaries + [address]
    }

    /** One callback. */
    function Hear(e: Event): Gathered
      requires Expects(e)
    {
      match e
      case StartUnit(name, address, _) =>
        this.(inUnit := true, file := Some(name), unitBase := address, boundaries := boundaries + [address])
      case EndUnit(address) => this.(inUnit := false, file := None, unitBase := 0, boundaries := Bound(address))
      case StartFunction(title, address) =>
        this.(current := Some(Function(title, address, 0, [])), boundaries := boundaries + [address])
      case EndFunction(address) =>
        this.(functions := if current.value.address >= unitBase then functions + [current.value] else functions,
              current := None, boundaries := Bound(address))
      case LineAt(address, name, number) =>
        this.(current := Some(current.value.(lines := current.value.lines + [SourceLine(address, 0, name, number)])),
              file := Some(name))
    }

    /** Every function starts at a boundary. */
    ghost predicate Bounded()
    {
      && (forall i :: 0 <= i < |functions| ==> functions[i].address in boundaries)
      && (current.Some? ==> current.value.address in boundaries)
    }
  }

  const NOTHING: Gathered := Gathered([], [], false, 0, None, None)

  /** The assertions hold for callbacks in order, and the handler keeps track. */
  lemma HearKeeps(g: Gathered, p: Phase, e: Event)
    requires g.In(p) && Next(p, e).Some? && g.Bounded()
    ensures g.Expects(e) && g.Hear(e).In(Next(p, e).value) && g.Hear(e).Bounded()
  {
  }

  /** What is gathered from callbacks in order. */
  ghost function Gather(evs: seq<Event>): (g: Gathered)
    requires After(Outside, evs).Some?
    ensures g.In(After(Outside, evs).value) && g.Bounded()
    decreases |evs|
  {
    if evs == [] then NOTHING
    else
      var g := Gather(evs[..|evs| - 1]);
      HearKeeps(g, After(Outside, evs[..|evs| - 1]).value, evs[|evs| - 1]);
      g.Hear(evs[|evs| - 1])
  }

  // ----- What is gathered, by the places of callbacks

  /** The place of the last start of a function; -1 if there is none. */
  ghost function LastStart(evs: seq<Event>): (i: int)
    ensures -1 <= i < |evs| && (i >= 0 ==> evs[i].StartFunction?)
    ensures forall k :: i < k < |evs| ==> !evs[k].StartFunction?
  {
    if evs == [] then -1
    else if evs[|evs| - 1].StartFunction? then |evs| - 1
    else LastStart(evs[..|evs| - 1])
  }

  /** The place of the last start of a unit. */
  ghost function LastUnit(evs: seq<Event>): (i: int)
    ensures -1 <= i < |evs| && (i >= 0 ==> evs[i].StartUnit?)
    ensures forall k :: i < k < |evs| ==> !evs[k].StartUnit?
  {
    if evs == [] then -1
    else if evs[|evs| - 1].StartUnit? then |evs| - 1
    else LastUnit(evs[..|evs| - 1])
  }

  /** The lines reported, in order. */
  ghost function LinesIn(evs: seq<Event>): seq<SourceLine>
  {
    if evs == [] then []
    else
      var e := evs[|evs| - 1];
      LinesIn(evs[..|evs| - 1]) + if e.LineAt? then [SourceLine(e.address, 0, e.file, e.number)] else []
  }

  /** The function that ends right after `evs`, if it is not below its unit: it has the
      title and address of the last start, and the lines reported since. */
  ghost function Ended(evs: seq<Event>): seq<Function>
  {
    var i, u := LastStart(evs), LastUnit(evs);
    if i < 0 || u < 0 || evs[i].address < evs[u].address then []
    else [Open(evs, i)]
  }

  /** The functions that end in `evs`, in order. */
  ghost function FunctionsIn(evs: seq<Event>): seq<Function>
  {
    if evs == [] then []
    else
      var n := |evs| - 1;
      FunctionsIn(evs[..n]) + if evs[n].EndFunction? then Ended(evs[..n]) else []
  }

  /** The starts of units and functions, and the ends that are given, in order. */
  ghost function BoundariesIn(evs: seq<Event>): seq<U64>
  {
    if evs == [] then []
    else
      var n := |evs| - 1;
      var e := evs[n];
      BoundariesIn(evs[..n])
      + if e.StartUnit? || e.StartFunction? || ((e.EndUnit? || e.EndFunction?) && e.address != 0) then [e.address] else []
  }

  /** The last unit started is the current one, and the last function started, with the
      lines since, the open one. */
  ghost predicate Tracks(evs: seq<Event>, g: Gathered, p: Phase)
  {
    && (!p.Outside? ==> LastUnit(evs) >= 0 && g.unitBase == evs[LastUnit(evs)].address)
    && (p.InFunction? ==> LastStart(evs) >= 0 && g.current == Some(Open(evs, LastStart(evs))))
  }

  ghost function Open(evs: seq<Event>, i: int): Function
    requires 0 <= i < |evs| && evs[i].StartFunction?
  {
    Function(evs[i].title, evs[i].address, 0, LinesIn(evs[i + 1..]))
  }

  lemma LineOpen(evs: seq<Event>, e: Event, i: int)
    requires 0 <= i < |evs| && evs[i].StartFunction? && e.LineAt?
    ensures Open(evs + [e], i) == Open(evs, i).(lines := Open(evs, i).lines + [SourceLine(e.address, 0, e.file, e.number)])
  {
    assert (evs + [e])[i + 1..] == evs[i + 1..] + [e];
    assert (evs[i + 1..] + [e])[..|evs| - i - 1] == evs[i + 1..];
  }

  lemma TrackStep(evs: seq<Event>, g: Gathered, p: Phase, e: Event)
    requires Tracks(evs, g, p) && g.In(p) && Next(p, e).Some? && g.Expects(e)
    ensures Tracks(evs + [e], g.Hear(e), Next(p, e).value)
  {
    var more := evs + [e];
    assert more[..|evs|] == evs;
    if e.StartFunction? {
      assert more[|evs| + 1..] == [];
    } else if e.LineAt? {
      LineOpen(evs, e, LastStart(evs));
    }
  }

  lemma FunctionsStep(evs: seq<Event>, g: Gathered, p: Phase, e: Event)
    requires Tracks(evs, g, p) && g.In(p) && Next(p, e).Some? && g.Expects(e)
    requires g.functions == FunctionsIn(evs) && g.boundaries == BoundariesIn(evs)
    ensures g.Hear(e).functions == FunctionsIn(evs + [e]) && g.Hear(e).boundaries == BoundariesIn(evs + [e])
  {
    assert (evs + [e])[..|evs|] == evs;
  }

  /** What is gathered from callbacks in order: the functions that end, but for those
      below their unit, and the boundaries given. */
  lemma {:induction false} GatherExact(evs: seq<Event>)
    requires After(Outside, evs).Some?
    ensures Gather(evs).functions == FunctionsIn(evs) && Gather(evs).boundaries == BoundariesIn(evs)
    ensures Tracks(evs, Gather(evs), After(Outside, evs).value)
    decreases |evs|
  {
    if evs != [] {
      var n := |evs| - 1;
      var before, e := evs[..n], evs[n];
      GatherExact(before);
      var g, p := Gather(before), After(Outside, before).value;
      HearKeeps(g, p, e);
      assert evs == before + [e];
      TrackStep(before, g, p, e);
      FunctionsStep(before, g, p, e);
    }
  }

  // ----- Sizes

  /** The size given to a function at `a`: up to the next boundary. */
  ghost predicate SizedBy(bs: seq<U64>, a: U64, size: U64)
  {
    if forall b :: b in bs ==> b <= a then size == FALLBACK_SIZE
    else 0 < size && a + size in bs && forall b :: b in bs && a < b ==> a + size <= b
  }

  ghost predicate Ascending(bs: seq<U64>)
  {
    forall i, j :: 0 <= i <= j < |bs| ==> bs[i] <= bs[j]
  }

  /** `std::upper_bound`. */
  method UpperBound(bs: seq<U64>, a: U64) returns (k: nat)
    requires Ascending(bs)
    ensures k <= |bs| && (forall i :: 0 <= i < k ==> bs[i] <= a) && (forall i :: k <= i < |bs| ==> a < bs[i])
  {
    var lo, hi := 0, |bs|;
    while lo < hi
      invariant 0 <= lo <= hi <= |bs|
      invariant forall i :: 0 <= i < lo ==> bs[i] <= a
      invariant forall i :: hi <= i < |bs| ==> a < bs[i]
    {
      var mid := (lo + hi) / 2;
      if bs[mid] <= a {
        lo := mid + 1;
      } else {
        hi := mid;
      }
    }
    k := lo;
  }

  method FunctionSize(bs: seq<U64>, a: U64) returns (size: U64)
    requires Ascending(bs)
    ensures SizedBy(bs, a, size)
  {
    var k := UpperBound(bs, a);
    if k < |bs| {
      size := Sub64(bs[k], a);
      assert bs[k] in bs;
    } else {
      size := FALLBACK_SIZE;
    }
  }

  // ----- Lines

  function Insert(s: seq<SourceLine>, l: SourceLine): seq<SourceLine>
  {
    if s == [] || s[|s| - 1].address <= l.address then s + [l]
    else Insert(s[..|s| - 1], l) + [s[|s| - 1]]
  }

  /** `std::stable_sort` by address. */
  function Sorted(s: seq<SourceLine>): seq<SourceLine>
  {
    if s == [] then [] else Insert(Sorted(s[..|s| - 1]), s[|s| - 1])
  }

  function LinesAt(s: seq<SourceLine>, a: U64): seq<SourceLine>
  {
    if s == [] then []
    else LinesAt(s[..|s| - 1], a) + if s[|s| - 1].address == a then [s[|s| - 1]] else []
  }

  ghost predicate LinesAscend(s: seq<SourceLine>)
  {
    forall i, j :: 0 <= i < j < |s| ==> s[i].address <= s[j].address
  }

  lemma LinesAtSnoc(s: seq<SourceLine>, l: SourceLine, a: U64)
    ensures LinesAt(s + [l], a) == LinesAt(s, a) + if l.address == a then [l] else []
  {
    assert (s + [l])[..|s|] == s;
  }

  lemma {:induction false} InsertMembers(s: seq<SourceLine>, l: SourceLine)
    ensures |Insert(s, l)| == |s| + 1 && forall x :: x in Insert(s, l) <==> x in s || x == l
    decreases |s|
  {
    if s != [] && l.address < s[|s| - 1].address {
      var n := |s| - 1;
      InsertMembers(s[..n], l);
      assert s == s[..n] + [s[n]];
    }
  }

  lemma {:induction false} InsertAscends(s: seq<SourceLine>, l: SourceLine)
    requires LinesAscend(s)
    ensures LinesAscend(Insert(s, l))
    decreases |s|
  {
    if s != [] && l.address < s[|s| - 1].address {
      var n := |s| - 1;
      var r := Insert(s[..n], l);
      InsertAscends(s[..n], l);
      InsertMembers(s[..n], l);
      forall i | 0 <= i < |r|
        ensures r[i].address <= s[n].address
      {
        assert r[i] in r;
      }
    }
  }

  lemma {:induction false} InsertStable(s: seq<SourceLine>, l: SourceLine, a: U64)
    ensures LinesAt(Insert(s, l), a) == LinesAt(s + [l], a)
    decreases |s|
  {
    if s != [] && l.address < s[|s| - 1].address {
      var n := |s| - 1;
      InsertStable(s[..n], l, a);
      LinesAtSnoc(Insert(s[..n], l), s[n], a);
      LinesAtSnoc(s[..n], l, a);
      LinesAtSnoc(s, l, a);
    }
  }

  /** Sorting puts lines in order and, address by address, keeps them as they were. */
  lemma {:induction false} SortedStable(s: seq<SourceLine>, a: U64)
    ensures LinesAscend(Sorted(s)) && |Sorted(s)| == |s| && LinesAt(Sorted(s), a) == LinesAt(s, a)
    ensures forall x :: x in Sorted(s) <==> x in s
    decreases |s|
  {
    if s != [] {
      var n := |s| - 1;
      SortedStable(s[..n], a);
      InsertAll(Sorted(s[..n]), s[n], s[..n], a);
      SliceSnoc(s, n);
      assert s[..n + 1] == s;
    }
  }

  lemma InsertAll(t: seq<SourceLine>, l: SourceLine, s: seq<SourceLine>, a: U64)
    requires LinesAscend(t) && |t| == |s| && LinesAt(t, a) == LinesAt(s, a) && forall x :: x in t <==> x in s
    ensures LinesAscend(Insert(t, l)) && |Insert(t, l)| == |s + [l]| && LinesAt(Insert(t, l), a) == LinesAt(s + [l], a)
    ensures forall x :: x in Insert(t, l) <==> x in s + [l]
  {
    InsertMembers(t, l);
    InsertAscends(t, l);
    InsertStable(t, l, a);
    LinesAtSnoc(t, l, a);
    LinesAtSnoc(s, l, a);
  }

  /** The address where line `i` ends, given where the last one ends. */
  function EndOf(s: seq<SourceLine>, i: nat, end: U64): U64
    requires i < |s|
  {
    if i + 1 < |s| then s[i + 1].address else end
  }

  /** The lines with sizes that make each end where the next begins, modulo 2^64. */
  function Measured(s: seq<SourceLine>, end: U64): (r: seq<SourceLine>)
    ensures |r| == |s|
    ensures forall i :: 0 <= i < |s| ==> r[i] == s[i].(size := Sub64(EndOf(s, i, end), s[i].address))
  {
    seq(|s|, i requires 0 <= i < |s| => s[i].(size := Sub64(EndOf(s, i, end), s[i].address)))
  }

  method MeasureLines(s: seq<SourceLine>, end: U64) returns (r: seq<SourceLine>)
    ensures r == Measured(s, end)
  {
    r := s;
    if s != [] {
      var last := |s| - 1;
      for i := 0 to last
        invariant |r| == |s| && (forall k :: i <= k < |s| ==> r[k] == s[k])
        invariant forall k :: 0 <= k < i ==> r[k] == Measured(s, end)[k]
      {
        r := r[i := r[i].(size := Sub64(r[i + 1].address, r[i].address))];
      }
      r := r[last := r[last].(size := Sub64(end, r[last].address))];
    }
  }

  function TotalSize(s: seq<SourceLine>): nat
  {
    if s == [] then 0 else s[0].size + TotalSize(s[1..])
  }

  /** The sizes of a function's lines add up, modulo 2^64, to the distance from the
      first line to the end of the function. */
  lemma {:induction false} SizesTelescope(s: seq<SourceLine>, end: U64)
    requires s != []
    ensures TotalSize(Measured(s, end)) % TWO_64 == (end - s[0].address) % TWO_64
    decreases |s|
  {
    var r := Measured(s, end);
    if |s| == 1 {
      assert r[1..] == [];
      SubMod(end, s[0].address);
    } else {
      SizesTelescope(s[1..], end);
      assert r[1..] == Measured(s[1..], end);
      FirstGap(s[0].address, s[1].address, end, r[0].size, TotalSize(r[1..]));
    }
  }

  lemma SubMod(a: U64, b: U64)
    ensures Sub64(a, b) % TWO_64 == (a - b) % TWO_64
  {
  }

  lemma FirstGap(a: U64, b: U64, end: U64, gap: U64, rest: nat)
    requires gap == Sub64(b, a) && rest % TWO_64 == (end - b) % TWO_64
    ensures (gap + rest) % TWO_64 == (end - a) % TWO_64
  {
    SubMod(b, a);
    ModSum(gap, b - a, rest, end - b);
  }

  lemma ModSum(a: int, a': int, b: int, b': int)
    requires a % TWO_64 == a' % TWO_64 && b % TWO_64 == b' % TWO_64
    ensures (a + b) % TWO_64 == (a' + b') % TWO_64
  {
    var p, q := a / TWO_64 - a' / TWO_64, b / TWO_64 - b' / TWO_64;
    assert a + b == a' + b' + TWO_64 * (p + q);
  }

  /** The sizes add up to the distance from the first line to the end. */
  ghost predicate Telescopes(s: seq<SourceLine>, end: U64)
  {
    s != [] ==> TotalSize(s) % TWO_64 == (end - s[0].address) % TWO_64
  }

  lemma MeasuredTelescopes(s: seq<SourceLine>, end: U64)
    ensures Telescopes(Measured(s, end), end)
  {
    if s != [] {
      SizesTelescope(s, end);
      assert Measured(s, end)[0].address == s[0].address;
    }
  }

  /** No line starts past the end. */
  ghost predicate NonePast(s: seq<SourceLine>, end: U64)
  {
    forall i :: 0 <= i < |s| ==> s[i].address <= end
  }

  /** Each line ends where the next begins, and the last at the end. */
  ghost predicate Tiles(s: seq<SourceLine>, end: U64)
  {
    forall i :: 0 <= i < |s| ==> s[i].address + s[i].size == EndOf(s, i, end)
  }

  /** Lines that lie inside the function tile what follows the first of them. */
  lemma LinesTile(s: seq<SourceLine>, end: U64)
    requires LinesAscend(s) && NonePast(s, end)
    ensures Tiles(Measured(s, end), end)
  {
  }

  // ----- Finalizing

  /** `g` is `f` with its size and its lines settled. */
  ghost predicate Settled(bs: seq<U64>, f: Function, g: Function)
  {
    && g.title == f.title && g.address == f.address && SizedBy(bs, g.address, g.size)
    && g.lines == Measured(Sorted(f.lines), Add64(g.address, g.size))
  }

  ghost predicate AllSettled(bs: seq<U64>, fs: seq<Function>, gs: seq<Function>)
  {
    |fs| == |gs| && forall i :: 0 <= i < |fs| ==> Settled(bs, fs[i], gs[i])
  }

  /** Every function starts at a boundary. */
  ghost predicate AllStartAt(bs: seq<U64>, fs: seq<Function>)
  {
    forall i :: 0 <= i < |fs| ==> fs[i].address in bs
  }

  lemma StartsKept(g: Gathered, bs: seq<U64>, order: seq<Function>, done: seq<Function>)
    requires g.Bounded() && multiset(order) == multiset(g.functions) && multiset(bs) == multiset(g.boundaries)
    requires AllSettled(bs, order, done)
    ensures AllStartAt(bs, done)
  {
    forall i | 0 <= i < |done|
      ensures done[i].address in bs
    {
      assert order[i] in multiset(order);
      assert order[i].address in g.boundaries;
      assert order[i].address in multiset(bs);
      assert Settled(bs, order[i], done[i]);
    }
  }

  /** The lines of a settled function are its lines in stable order; their sizes add
      up to the distance from the first to the end; and they tile that stretch if
      none lies past the end. */
  ghost predicate LinesSettled(f: Function, g: Function)
  {
    var end := Add64(g.address, g.size);
    && |g.lines| == |f.lines| && LinesAscend(g.lines)
    && Telescopes(g.lines, end)
    && (NonePast(g.lines, end) ==> Tiles(g.lines, end))
  }

  lemma SettledLines(bs: seq<U64>, f: Function, g: Function)
    requires Settled(bs, f, g)
    ensures LinesSettled(f, g)
  {
    var s, end := Sorted(f.lines), Add64(g.address, g.size);
    SortedStable(f.lines, 0);
    MeasuredTelescopes(s, end);
    if NonePast(g.lines, end) {
      forall i | 0 <= i < |s|
        ensures s[i].address <= end
      {
        assert g.lines[i].address == s[i].address;
      }
      LinesTile(s, end);
    }
  }

  /** The module after `Finalize`: each function ends at or before any that starts
      after it, exactly those at the greatest boundary fall back, and all lines are
      settled. */
  lemma ModuleSettled(bs: seq<U64>, order: seq<Function>, done: seq<Function>)
    requires AllSettled(bs, order, done) && AllStartAt(bs, done)
    ensures forall i, j :: 0 <= i < |done| && 0 <= j < |done| && done[i].address < done[j].address ==>
              done[i].address + done[i].size <= done[j].address
    ensures forall i :: 0 <= i < |done| && (exists b :: b in bs && done[i].address < b) ==>
              done[i].address + done[i].size in bs
    ensures forall i :: 0 <= i < |done| && (forall b :: b in bs ==> b <= done[i].address) ==> done[i].size == FALLBACK_SIZE
    ensures forall i :: 0 <= i < |done| ==> LinesSettled(order[i], done[i])
  {
    forall i | 0 <= i < |done|
      ensures LinesSettled(order[i], done[i]) && SizedBy(bs, done[i].address, done[i].size)
    {
      SettledLines(bs, order[i], done[i]);
      assert Settled(bs, order[i], done[i]);
    }
  }

  /** One unit with two functions at its own address, and no end for any of them. */
  const TWINS: seq<Event> := [StartUnit(1, 0x1000, None), StabsEvents.StartFunction([1], 0x1000), StabsEvents.EndFunction(0),
                              StabsEvents.StartFunction([2], 0x1000), StabsEvents.EndFunction(0), EndUnit(0)]

  /** The fallback size can be given more than once: both functions get it. */
  lemma TwinsFallBack()
    ensures After(Outside, TWINS) == Some(Outside) && |Gather(TWINS).functions| == 2
    ensures forall i :: 0 <= i < 2 ==> Gather(TWINS).functions[i].address == 0x1000
    ensures forall size :: SizedBy(Gather(TWINS).boundaries, 0x1000, size) <==> size == FALLBACK_SIZE
  {
    TwinsPrefix(6);
    assert TWINS[..6] == TWINS;
    assert Gather(TWINS).boundaries == [0x1000, 0x1000, 0x1000];
  }

  lemma {:induction false} TwinsPrefix(n: nat)
    requires n <= 6
    ensures After(Outside, TWINS[..n]) == Some(if n == 0 || n == 6 then Outside else if n == 2 || n == 4 then InFunction else InUnit)
    ensures Gather(TWINS[..n]) == TwinsAfter(n)
    decreases n
  {
    if n > 0 {
      TwinsPrefix(n - 1);
      assert TWINS[..n][..n - 1] == TWINS[..n - 1];
    }
  }

  /** What is gathered after `n` of the callbacks. */
  function TwinsAfter(n: nat): Gathered
  {
    var a, b := Function([1], 0x1000, 0, []), Function([2], 0x1000, 0, []);
    var at: U64 := 0x1000;
    if n == 0 then NOTHING
    else if n == 1 then Gathered([], [at], true, at, None, Some(1))
    else if n == 2 then Gathered([], [at, at], true, at, Some(a), Some(1))
    else if n == 3 then Gathered([a], [at, at], true, at, None, Some(1))
    else if n == 4 then Gathered([a], [at, at, at], true, at, Some(b), Some(1))
    else if n == 5 then Gathered([a, b], [at, at, at], true, at, None, Some(1))
    else Gathered([a, b], [at, at, at], false, 0, None, None)
  }

  /** The loop of `Finalize`. */
  method SettleAll(bs: seq<U64>, fs: seq<Function>) returns (done: seq<Function>)
    requires Ascending(bs)
    ensures AllSettled(bs, fs, done)
  {
    done := [];
    for i := 0 to |fs|
      invariant |done| == i && forall k :: 0 <= k < i ==> Settled(bs, fs[k], done[k])
    {
      var f := fs[i];
      var size := FunctionSize(bs, f.address);
      var lines := MeasureLines(Sorted(f.lines), Add64(f.address, size));
      var g := Function(f.title, f.address, size, lines);
      assert Settled(bs, f, g);
      done := done + [g];
    }
  }

  /** `StabsToModule`. */
  class StabsToModule {
    var functions: seq<Function>
    var boundaries: seq<U64>
    var inUnit: bool
    var unitBase: U64
    var current: Option<Function>
    var file: Option<nat>
    /** The functions added to the module. */
    var added: seq<Function>

    ghost function Now(): Gathered
      reads this
    {
      Gathered(functions, boundaries, inUnit, unitBase, current, file)
    }

    constructor ()
      ensures Now() == NOTHING && added == []
    {
      functions, boundaries, inUnit, unitBase, current, file, added := [], [], false, 0, None, None, [];
    }

    method StartCompilationUnit(name: nat, address: U64, directory: Option<nat>) returns (ok: bool)
      requires !inUnit
      modifies this
      ensures ok && added == old(added) && Now() == old(Now()).Hear(StartUnit(name, address, directory))
    {
      inUnit, file, unitBase := true, Some(name), address;
      boundaries := boundaries + [address];
      ok := true;
    }

    method EndCompilationUnit(address: U64) returns (ok: bool)
      requires inUnit
      modifies this
      ensures ok && added == old(added) && Now() == old(Now()).Hear(EndUnit(address))
    {
      inUnit, file, unitBase := false, None, 0;
      if address != 0 {
        boundaries := boundaries + [address];
      }
      ok := true;
    }

    method StartFunction(title: seq<Byte>, address: U64) returns (ok: bool)
      requires current.None?
      modifies this
      ensures ok && added == old(added) && Now() == old(Now()).Hear(StabsEvents.StartFunction(title, address))
    {
      current := Some(Function(title, address, 0, []));
      boundaries := boundaries + [address];
      ok := true;
    }

    method EndFunction(address: U64) returns (ok: bool)
      requires current.Some?
      modifies this
      ensures ok && added == old(added) && Now() == old(Now()).Hear(StabsEvents.EndFunction(address))
    {
      if current.value.address >= unitBase {
        functions := functions + [current.value];
      }
      current := None;
      if address != 0 {
        boundaries := boundaries + [address];
      }
      ok := true;
    }

    method Line(address: U64, name: nat, number: nat) returns (ok: bool)
      requires current.Some? && file.Some?
      modifies this
      ensures ok && added == old(added) && Now() == old(Now()).Hear(LineAt(address, name, number))
    {
      if file != Some(name) {
        file := Some(name);
      }
      var line := SourceLine(address, 0, file.value, number);
      current := Some(current.value.(lines := current.value.lines + [line]));
      ok := true;
    }

    method Finalize() returns (ghost order: seq<Function>, ghost done: seq<Function>)
      modifies this
      ensures functions == [] && multiset(boundaries) == multiset(old(boundaries))
      ensures multiset(order) == multiset(old(functions)) && SortedBy((f: Function) => f.address, order)
      ensures added == old(added) + done && AllSettled(boundaries, order, done)
    {
      boundaries := SortByAddress(boundaries, (b: U64) => b as int);
      assert Ascending(boundaries);
      functions := SortByAddress(functions, (f: Function) => f.address);
      var settled := SettleAll(boundaries, functions);
      order, done := functions, settled;
      added := added + settled;
      functions := [];
    }

    /** One callback of the reader. */
    method Handle(e: Event) returns (ok: bool)
      requires Now().Expects(e)
      modifies this
      ensures ok && added == old(added) && Now() == old(Now()).Hear(e)
    {
      match e
      case StartUnit(name, address, directory) => ok := StartCompilationUnit(name, address, directory);
      case EndUnit(address) => ok := EndCompilationUnit(address);
      case StartFunction(title, address) => ok := StartFunction(title, address);
      case EndFunction(address) => ok := EndFunction(address);
      case LineAt(address, name, number) => ok := Line(address, name, number);
    }

    /** A whole run of callbacks in order: no assertion fails on the way, and in the
        end the functions are settled by boundaries that include all their starts. */
    method Receive(evs: seq<Event>) returns (ghost order: seq<Function>)
      requires Now() == NOTHING && added == [] && After(Outside, evs).Some?
      modifies this
      ensures multiset(order) == multiset(FunctionsIn(evs)) && multiset(boundaries) == multiset(BoundariesIn(evs))
      ensures AllSettled(boundaries, order, added) && AllStartAt(boundaries, added)
    {
      HearAll(evs);
      GatherExact(evs);
      ghost var g := Now();
      ghost var done;
      order, done := Finalize();
      assert added == done;
      StartsKept(g, boundaries, order, added);
    }

    method HearAll(evs: seq<Event>)
      requires Now() == NOTHING && After(Outside, evs).Some?
      modifies this
      ensures Now() == Gather(evs) && added == old(added)
    {
      AllowedPrefix(Outside, evs, 0);
      for n := 0 to |evs|
        invariant After(Outside, evs[..n]).Some? && Now() == Gather(evs[..n]) && added == old(added)
      {
        AllowedPrefix(Outside, evs, n + 1);
        assert evs[..n + 1][..n] == evs[..n];
        HearKeeps(Now(), After(Outside, evs[..n]).value, evs[n]);
        var ok := Handle(evs[n]);
      }
      assert evs[..|evs|] == evs;
    }
  }

  /** The reader feeding this handler, for a section of any bytes. */
  method LoadStabs(stab: seq<Byte>, stabstr: seq<Byte>, big: bool, valueSize: nat, unitized: bool)
    returns (functions: seq<Function>, ghost order: seq<Function>, ghost bs: seq<U64>)
    requires valueSize == 4 || valueSize == 8
    ensures var evs := AllEvents(Sections(stabstr, unitized), State(Entries(stab, big, valueSize), 0, 0, 0, []));
            multiset(order) == multiset(FunctionsIn(evs)) && multiset(bs) == multiset(BoundariesIn(evs))
    ensures AllSettled(bs, order, functions) && AllStartAt(bs, functions)
    ensures forall i, j :: 0 <= i < |functions| && 0 <= j < |functions| && functions[i].address < functions[j].address ==>
              functions[i].address + functions[i].size <= functions[j].address
    ensures forall i :: 0 <= i < |functions| ==> LinesAscend(functions[i].lines)
  {
    var ok, trace := ReadSection(stab, stabstr, big, valueSize, unitized, t => true);
    ghost var evs := AllEvents(Sections(stabstr, unitized), State(Entries(stab, big, valueSize), 0, 0, 0, []));
    ghost var n := HeardExact(t => true, [], evs);
    assert trace == evs;
    var handler := new StabsToModule();
    order := handler.Receive(trace);
    functions, bs := handler.added, handler.boundaries;
    GatherExact(trace);
    ModuleSettled(bs, order, functions);
    assert forall i :: 0 <= i < |functions| ==> LinesSettled(order[i], functions[i]);
  }
}
