/** `AssignLinesToFunctions`: a single pass over sorted functions and lines. */
module LineSweep {
  import opened Machine
  import opened LineTables
  import opened SweepSteps
  import opened SweepWarnings

  /** The test `within`, on wrapped addresses. */
  predicate Within(itemAddress: U64, itemSize: U64, a: U64)
  {
    Sub64(a, itemAddress) < itemSize
  }

  lemma WithinIsMembership(itemAddress: U64, itemSize: U64, a: U64)
    requires itemAddress + itemSize <= TWO_64
    ensures Within(itemAddress, itemSize, a) <==> itemAddress <= a < itemAddress + itemSize
  {
  }

  ghost predicate Distinct<T>(s: seq<T>)
  {
    forall i, j :: 0 <= i < j < |s| ==> s[i] != s[j]
  }

  ghost predicate SweepInput(fs: seq<Function>, ls: seq<Line>)
  {
    && AllGood(FunctionSpans(fs)) && AllGood(LineSpans(ls))
    && Ascending(FunctionSpans(fs)) && Ascending(LineSpans(ls))
    && Distinct(fs)
  }

  /** An address up to 2^64 as the program holds it. */
  function Wrapped(a: int): int
  {
    if a == TWO_64 then 0 else a
  }

  /** `next_transition`, on wrapped addresses: zero stands for 2^64. */
  method NextTransition(fs: seq<Function>, ls: seq<Line>, fi: nat, li: nat, current: U64) returns (next: U64)
    requires AllGood(FunctionSpans(fs)) && AllGood(LineSpans(ls))
    requires At(FunctionSpans(fs), LineSpans(ls), Pos(fi, li, current)) && (fi < |fs| || li < |ls|)
    ensures next == Wrapped(Next(FunctionSpans(fs), LineSpans(ls), Pos(fi, li, current)))
  {
    var func := fi < |fs|;
    var line := li < |ls|;
    if func {
      assert FunctionSpans(fs)[fi].Good();
    }
    if line {
      assert LineSpans(ls)[li].Good();
    }
    if func && current >= fs[fi].address {
      if line && current >= ls[li].address {
        var funcLeft := Sub64(fs[fi].size, Sub64(current, fs[fi].address));
        var lineLeft := Sub64(ls[li].size, Sub64(current, ls[li].address));
        next := Add64(current, if funcLeft < lineLeft then funcLeft else lineLeft);
      } else if line && Within(fs[fi].address, fs[fi].size, ls[li].address) {
        next := ls[li].address;
      } else {
        next := Add64(fs[fi].address, fs[fi].size);
      }
    } else {
      if line && current >= ls[li].address {
        if func && Within(ls[li].address, ls[li].size, fs[fi].address) {
          next := fs[fi].address;
        } else {
          next := Add64(ls[li].address, ls[li].size);
        }
      } else if func && line {
        next := if fs[fi].address < ls[li].address then fs[fi].address else ls[li].address;
      } else if func {
        next := fs[fi].address;
      } else {
        next := ls[li].address;
      }
    }
  }

  // ----- How long the sweep can run

  ghost function Ends(s: seq<Extent>): (e: set<int>)
    ensures |e| <= 2 * |s|
    ensures forall i :: 0 <= i < |s| ==> s[i].lo in e && s[i].hi in e
  {
    if s == [] then {}
    else
      var n := |s| - 1;
      var r := Ends(s[..n]) + {s[n].lo, s[n].hi};
      assert forall i :: 0 <= i < |s| ==> s[i] == if i < n then s[..n][i] else s[n];
      r
  }

  ghost function AllEnds(F: seq<Extent>, L: seq<Extent>): (e: set<int>)
    ensures |e| <= 2 * (|F| + |L|)
    ensures Ends(F) <= e && Ends(L) <= e
  {
    Ends(F) + Ends(L)
  }

  ghost function Ahead(e: set<int>, c: int): set<int>
  {
    set x | x in e && c < x
  }

  lemma SubsetSize<T>(a: set<T>, b: set<T>)
    requires a <= b
    ensures |a| <= |b|
  {
    assert b == a + (b - a);
  }

  /** Each transition is the end of some range, and leaves fewer ahead. */
  lemma AheadShrinks(F: seq<Extent>, L: seq<Extent>, p: Pos)
    requires AllGood(F) && AllGood(L) && At(F, L, p) && (p.fi < |F| || p.li < |L|)
    ensures Next(F, L, p) in AllEnds(F, L)
    ensures |Ahead(AllEnds(F, L), Next(F, L, p))| < |Ahead(AllEnds(F, L), p.cur)|
  {
    NextFacts(F, L, p);
    var n, e := Next(F, L, p), AllEnds(F, L);
    assert n in e;
    SubsetSize(Ahead(e, n) + {n}, Ahead(e, p.cur));
  }

  /** `steps` turns have been made, and there are ranges' ends enough for more. */
  ghost predicate Budget(F: seq<Extent>, L: seq<Extent>, c: int, steps: nat)
  {
    steps + |Ahead(AllEnds(F, L), c)| < |AllEnds(F, L)|
  }

  lemma BudgetStart(F: seq<Extent>, L: seq<Extent>, c: int)
    requires c in AllEnds(F, L)
    ensures Budget(F, L, c, 0)
  {
    SubsetSize(Ahead(AllEnds(F, L), c) + {c}, AllEnds(F, L));
  }

  lemma BudgetStep(F: seq<Extent>, L: seq<Extent>, p: Pos, steps: nat)
    requires AllGood(F) && AllGood(L) && At(F, L, p) && (p.fi < |F| || p.li < |L|)
    requires Budget(F, L, p.cur, steps)
    ensures Budget(F, L, Next(F, L, p), steps + 1) && steps + 1 <= 2 * (|F| + |L|)
  {
    AheadShrinks(F, L, p);
  }

  // ----- The invariant of the sweep

  /** Each piece lies inside its function and inside some line, whose file and
      number it carries. */
  ghost predicate Sound(F: seq<Extent>, ls: seq<Line>, got: seq<seq<Line>>)
  {
    && |got| == |F|
    && forall i, k :: 0 <= i < |F| && 0 <= k < |got[i]| ==> SoundPiece(F[i], ls, got[i][k])
  }

  ghost predicate SoundPiece(f: Extent, ls: seq<Line>, l: Line)
  {
    && 0 < l.size && f.lo <= l.address && l.address + l.size <= f.hi
    && exists j :: 0 <= j < |ls| && PartOf(l, ls[j])
  }

  predicate PartOf(l: Line, whole: Line)
  {
    && whole.address <= l.address && l.address + l.size <= whole.address + whole.size
    && l.file == whole.file && l.number == whole.number
  }

  datatype Progress = Progress(
    got: seq<seq<Line>>, citedFunctions: seq<nat>, citedLines: seq<nat>, lastUsed: Option<nat>)

  ghost predicate Inv(F: seq<Extent>, ls: seq<Line>, p: Pos, g: Progress)
  {
    && AllGood(F) && AllGood(LineSpans(ls)) && At(F, LineSpans(ls), p)
    && Sound(F, ls, g.got)
    && (Tidy(F, ls) ==>
          && Handed(F, ls, p, g.got)
          && FunctionsCited(F, LineSpans(ls), p, g.citedFunctions)
          && LinesCited(F, LineSpans(ls), p, g.citedLines, g.lastUsed))
  }

  /** What one step from `p` to `n` does. */
  ghost function Advance(F: seq<Extent>, ls: seq<Line>, p: Pos, n: int, g: Progress): Progress
    requires 0 < p.cur < n <= TWO_64 && p.fi <= |F| == |g.got| && p.li <= |ls|
  {
    var L := LineSpans(ls);
    var inF, inL := In(F, p.fi, p.cur), In(L, p.li, p.cur);
    Progress(
      if inF && inL then g.got[p.fi := g.got[p.fi] + Handout(F, ls, p, n)] else g.got,
      if inF && !inL then Cite(g.citedFunctions, p.fi) else g.citedFunctions,
      if inL && !inF && !LooksLikePadding(F, L, p, g.lastUsed) then Cite(g.citedLines, p.li) else g.citedLines,
      if inF && inL then Some(p.li) else g.lastUsed)
  }

  lemma SoundStep(F: seq<Extent>, ls: seq<Line>, p: Pos, n: int, g: Progress)
    requires AllGood(F) && AllGood(LineSpans(ls)) && At(F, LineSpans(ls), p) && Sound(F, ls, g.got)
    requires 0 < p.cur < n <= TWO_64 && (p.fi < |F| || p.li < |ls|) && n == Next(F, LineSpans(ls), p)
    ensures Sound(F, ls, Advance(F, ls, p, n, g).got)
  {
    var h := Handout(F, ls, p, n);
    if h != [] {
      assert PartOf(h[0], ls[p.li]);
      assert SoundPiece(F[p.fi], ls, h[0]);
    }
  }

  lemma InvStep(F: seq<Extent>, ls: seq<Line>, p: Pos, q: Pos, g: Progress)
    requires Inv(F, ls, p, g) && 0 < p.cur < q.cur <= TWO_64 && Step(F, LineSpans(ls), p, q)
    ensures Inv(F, ls, q, Advance(F, ls, p, q.cur, g))
  {
    var h := Advance(F, ls, p, q.cur, g);
    SoundStep(F, ls, p, q.cur, g);
    if Tidy(F, ls) {
      assert p.fi < |F| ==> g.got[p.fi] + [] == g.got[p.fi];
      HandedStep(F, ls, p, q, g.got, h.got);
      FunctionsCitedStep(F, ls, p, q, g.citedFunctions, h.citedFunctions);
      LinesCitedStep(F, ls, p, q, g.citedLines, h.citedLines, g.lastUsed, h.lastUsed);
    }
  }

  // ----- The start and the end of the sweep

  ghost function Nothing(n: nat): Progress
  {
    Progress(seq(n, i => []), [], [], None)
  }

  lemma InvStart(F: seq<Extent>, ls: seq<Line>, c: int)
    requires AllGood(F) && AllGood(LineSpans(ls))
    requires Ascending(F) && Ascending(LineSpans(ls))
    requires forall i :: 0 <= i < |F| ==> c <= F[i].lo
    requires forall i :: 0 <= i < |ls| ==> c <= LineSpans(ls)[i].lo
    requires F != [] || ls != []
    ensures Inv(F, ls, Pos(0, 0, c), Nothing(|F|))
  {
    if Tidy(F, ls) {
      assert ls[..0] == [];
    }
  }

  /** Some byte of `f` is in no line. */
  ghost predicate Uncovered(f: Extent, L: seq<Extent>)
  {
    exists a :: f.Has(a) && !Covers(L, a)
  }

  /** Some byte of `l` is in no function and is not padding before the next one. */
  ghost predicate Wasted(F: seq<Extent>, l: Extent)
  {
    exists a :: l.Has(a) && !Covers(F, a) && !Padding(F, l, a)
  }

  /** The outcome of the sweep on pairwise disjoint functions and lines. */
  ghost predicate Exact(F: seq<Extent>, ls: seq<Line>, g: Progress)
    requires AllGood(F) && AllGood(LineSpans(ls)) && |g.got| == |F|
  {
    && (forall i :: 0 <= i < |F| ==> g.got[i] == Pieces(F[i], ls))
    && Distinct(g.citedFunctions) && Distinct(g.citedLines)
    && (forall i :: i in g.citedFunctions <==> 0 <= i < |F| && Uncovered(F[i], LineSpans(ls)))
    && (forall j :: j in g.citedLines <==> 0 <= j < |ls| && Wasted(F, LineSpans(ls)[j]))
  }

  lemma GapAtEnd(f: Extent, L: seq<Extent>, c: int)
    requires f.hi <= c
    ensures Gap(f, L, c) <==> Uncovered(f, L)
  {
    if Gap(f, L, c) {
      var a :| f.lo <= a < Min(f.hi, c) && !Covers(L, a);
      assert f.Has(a);
    }
    if Uncovered(f, L) {
      var a :| f.Has(a) && !Covers(L, a);
      assert f.lo <= a < Min(f.hi, c) && !Covers(L, a);
    }
  }

  lemma StrayAtEnd(F: seq<Extent>, l: Extent, c: int)
    requires l.hi <= c
    ensures Stray(F, l, c) <==> Wasted(F, l)
  {
    if Stray(F, l, c) {
      var a :| l.lo <= a < Min(l.hi, c) && !Covers(F, a) && !Padding(F, l, a);
      assert l.Has(a);
    }
    if Wasted(F, l) {
      var a :| l.Has(a) && !Covers(F, a) && !Padding(F, l, a);
      assert l.lo <= a < Min(l.hi, c) && !Covers(F, a) && !Padding(F, l, a);
    }
  }

  lemma InvEnd(F: seq<Extent>, ls: seq<Line>, p: Pos, g: Progress)
    requires Inv(F, ls, p, g) && p.fi == |F| && p.li == |ls| && Tidy(F, ls)
    ensures Exact(F, ls, g)
  {
    var L := LineSpans(ls);
    forall i | 0 <= i < |F|
      ensures i in g.citedFunctions <==> Uncovered(F[i], L)
    {
      GapAtEnd(F[i], L, p.cur);
    }
    forall j | 0 <= j < |L|
      ensures j in g.citedLines <==> Wasted(F, L[j])
    {
      StrayAtEnd(F, L[j], p.cur);
    }
  }

  // ----- The sweep

  /** The single pass. `steps` counts the turns of its loop. */
  method Sweep(fs: seq<Function>, ls: seq<Line>)
    returns (citedFunctions: seq<nat>, citedLines: seq<nat>, ghost got: seq<seq<Line>>, ghost steps: nat)
    requires SweepInput(fs, ls)
    modifies fs
    ensures |got| == |fs| && forall i :: 0 <= i < |fs| ==> fs[i].lines == old(fs[i].lines) + got[i]
    ensures Sound(FunctionSpans(fs), ls, got)
    ensures steps <= 2 * (|fs| + |ls|)
    ensures Tidy(FunctionSpans(fs), ls) ==>
              Exact(FunctionSpans(fs), ls, Progress(got, citedFunctions, citedLines, None))
  {
    ghost var F, L := FunctionSpans(fs), LineSpans(ls);
    citedFunctions, citedLines, got, steps := [], [], Nothing(|fs|).got, 0;
    if fs == [] && ls == [] {
      return;
    }
    var fi, li := 0, 0;
    var lastUsed: Option<nat> := None;
    var current := Start(fs, ls);
    InvStart(F, ls, current);
    BudgetStart(F, L, current);
    while fi < |fs| || li < |ls|
      invariant 0 < current && Inv(F, ls, Pos(fi, li, current), Progress(got, citedFunctions, citedLines, lastUsed))
      invariant forall i :: 0 <= i < |fs| ==> fs[i].lines == old(fs[i].lines) + got[i]
      invariant Budget(F, L, current, steps) && steps <= 2 * (|fs| + |ls|)
      decreases TWO_64 - current
    {
      ghost var p, g := Pos(fi, li, current), Progress(got, citedFunctions, citedLines, lastUsed);
      BudgetStep(F, L, p, steps);
      var next;
      next, citedFunctions, citedLines, lastUsed, got :=
        Visit(fs, ls, fi, li, current, citedFunctions, citedLines, lastUsed, got);
      steps := steps + 1;
      if next == 0 {
        InvLastStep(F, ls, p, g);
        return;
      }
      fi := PassFunctions(fs, fi, next, current);
      li := PassLines(ls, li, next, current);
      assert next > current;
      InvStep(F, ls, p, Pos(fi, li, next), g);
      current := next;
    }
    InvEndIf(F, ls, Pos(fi, li, current), Progress(got, citedFunctions, citedLines, lastUsed));
  }

  /** A step that reaches the end of the address space is the last one. */
  lemma InvLastStep(F: seq<Extent>, ls: seq<Line>, p: Pos, g: Progress)
    requires Inv(F, ls, p, g) && 0 < p.cur < TWO_64 && (p.fi < |F| || p.li < |ls|)
    requires Next(F, LineSpans(ls), p) == TWO_64
    ensures Sound(F, ls, Advance(F, ls, p, TWO_64, g).got)
    ensures Tidy(F, ls) ==> Exact(F, ls, Advance(F, ls, p, TWO_64, g).(lastUsed := None))
  {
    var q := Pos(|F|, |ls|, TWO_64);
    assert Step(F, LineSpans(ls), p, q);
    InvStep(F, ls, p, q, g);
    InvEndIf(F, ls, q, Advance(F, ls, p, TWO_64, g));
  }

  /** One turn's worth of handing out and warning, up to `next_transition`. */
  method Visit(fs: seq<Function>, ls: seq<Line>, fi: nat, li: nat, current: U64,
               citedFunctions: seq<nat>, citedLines: seq<nat>, lastUsed: Option<nat>, ghost got: seq<seq<Line>>)
    returns (next: U64, cf: seq<nat>, cl: seq<nat>, lu: Option<nat>, ghost got': seq<seq<Line>>)
    requires AllGood(FunctionSpans(fs)) && AllGood(LineSpans(ls)) && Distinct(fs)
    requires At(FunctionSpans(fs), LineSpans(ls), Pos(fi, li, current)) && (fi < |fs| || li < |ls|)
    requires 0 < current && |got| == |fs|
    modifies fs
    ensures var n := Next(FunctionSpans(fs), LineSpans(ls), Pos(fi, li, current));
            && current < n <= TWO_64 && next == Wrapped(n)
            && Progress(got', cf, cl, lu) ==
               Advance(FunctionSpans(fs), ls, Pos(fi, li, current), n,
                       Progress(got, citedFunctions, citedLines, lastUsed))
    ensures forall i, before :: 0 <= i < |fs| && old(fs[i].lines) == before + got[i] ==>
              fs[i].lines == before + got'[i]
  {
    assert fi < |fs| ==> FunctionSpans(fs)[fi].Good();
    assert li < |ls| ==> LineSpans(ls)[li].Good();
    assert fi < |fs| ==> current < fs[fi].address || Within(fs[fi].address, fs[fi].size, current);
    assert li < |ls| ==> current < ls[li].address || Within(ls[li].address, ls[li].size, current);
    NextFacts(FunctionSpans(fs), LineSpans(ls), Pos(fi, li, current));
    next := NextTransition(fs, ls, fi, li, current);
    cf, cl, lu, got' := citedFunctions, citedLines, lastUsed, got;
    if fi < |fs| && current >= fs[fi].address {
      if li < |ls| && current >= ls[li].address {
        var l := ls[li].(address := current, size := Sub64(next, current));
        fs[fi].lines := fs[fi].lines + [l];
        got' := got[fi := got[fi] + [l]];
        lu := Some(li);
      } else if !CitedLast(cf, fi) {
        cf := cf + [fi];
      }
    } else if li < |ls| && current >= ls[li].address {
      if !CitedLast(cl, li)
         && !(fi < |fs| && lu == Some(li) && Sub64(fs[fi].address, ls[li].address) == ls[li].size)
      {
        cl := cl + [li];
      }
    }
  }

  lemma InvEndIf(F: seq<Extent>, ls: seq<Line>, p: Pos, g: Progress)
    requires Inv(F, ls, p, g) && p.fi == |F| && p.li == |ls|
    ensures Sound(F, ls, g.got)
    ensures Tidy(F, ls) ==> Exact(F, ls, g.(lastUsed := None))
  {
    if Tidy(F, ls) {
      InvEnd(F, ls, p, g);
    }
  }

  method Start(fs: seq<Function>, ls: seq<Line>) returns (current: U64)
    requires SweepInput(fs, ls) && (fs != [] || ls != [])
    ensures 0 < current
    ensures forall i :: 0 <= i < |fs| ==> current <= FunctionSpans(fs)[i].lo
    ensures forall i :: 0 <= i < |ls| ==> current <= LineSpans(ls)[i].lo
    ensures current in AllEnds(FunctionSpans(fs), LineSpans(ls))
  {
    ghost var F, L := FunctionSpans(fs), LineSpans(ls);
    assert fs != [] ==> F[0].Good();
    assert ls != [] ==> L[0].Good();
    assert forall i :: 0 <= i < |fs| ==> F[0].lo <= F[i].lo;
    assert forall i :: 0 <= i < |ls| ==> L[0].lo <= L[i].lo;
    if fs != [] && ls != [] {
      current := if fs[0].address < ls[0].address then fs[0].address else ls[0].address;
    } else if ls != [] {
      current := ls[0].address;
    } else {
      current := fs[0].address;
    }
  }

  method PassFunctions(fs: seq<Function>, from: nat, next: U64, ghost c: int) returns (fi: nat)
    requires AllGood(FunctionSpans(fs)) && Passed(FunctionSpans(fs), from, c) && c < next
    ensures from <= fi && Passed(FunctionSpans(fs), fi, next)
  {
    fi := from;
    while fi < |fs| && next >= fs[fi].address && !Within(fs[fi].address, fs[fi].size, next)
      invariant from <= fi <= |fs|
      invariant forall i :: 0 <= i < fi ==> FunctionSpans(fs)[i].hi <= next
    {
      assert FunctionSpans(fs)[fi].Good();
      fi := fi + 1;
    }
    assert fi < |fs| ==> FunctionSpans(fs)[fi].Good();
  }

  method PassLines(ls: seq<Line>, from: nat, next: U64, ghost c: int) returns (li: nat)
    requires AllGood(LineSpans(ls)) && Passed(LineSpans(ls), from, c) && c < next
    ensures from <= li && Passed(LineSpans(ls), li, next)
  {
    li := from;
    while li < |ls| && next >= ls[li].address && !Within(ls[li].address, ls[li].size, next)
      invariant from <= li <= |ls|
      invariant forall i :: 0 <= i < li ==> LineSpans(ls)[i].hi <= next
    {
      assert LineSpans(ls)[li].Good();
      li := li + 1;
    }
    assert li < |ls| ==> LineSpans(ls)[li].Good();
  }

  // ----- Sorting first

  ghost predicate SortedBy<T>(key: T -> int, r: seq<T>)
  {
    forall i, j :: 0 <= i < j < |r| ==> key(r[i]) <= key(r[j])
  }

  lemma InsertedAt<T>(r: seq<T>, k: nat, x: T)
    requires k <= |r|
    ensures multiset(r[..k] + [x] + r[k..]) == multiset(r + [x])
  {
    assert r == r[..k] + r[k..];
  }

  lemma InsertedSorted<T>(key: T -> int, r: seq<T>, k: nat, x: T)
    requires SortedBy(key, r) && k <= |r|
    requires 0 < k ==> key(r[k - 1]) <= key(x)
    requires forall i :: k <= i < |r| ==> key(x) <= key(r[i])
    ensures SortedBy(key, r[..k] + [x] + r[k..])
  {
    var q := r[..k] + [x] + r[k..];
    assert forall i :: 0 <= i < k ==> key(r[i]) <= key(x);
    assert forall i :: 0 <= i < |q| ==> q[i] == if i < k then r[i] else if i == k then x else r[i - 1];
  }

  /** A sort by address; nothing is promised about equal addresses. */
  method SortByAddress<T>(s: seq<T>, key: T -> int) returns (r: seq<T>)
    ensures multiset(r) == multiset(s) && SortedBy(key, r)
  {
    r := [];
    for n := 0 to |s|
      invariant multiset(r) == multiset(s[..n]) && SortedBy(key, r)
    {
      var k := |r|;
      while 0 < k && key(s[n]) < key(r[k - 1])
        invariant 0 <= k <= |r|
        invariant forall i :: k <= i < |r| ==> key(s[n]) <= key(r[i])
      {
        k := k - 1;
      }
      InsertedAt(r, k, s[n]);
      InsertedSorted(key, r, k, s[n]);
      assert s[..n + 1] == s[..n] + [s[n]];
      r := r[..k] + [s[n]] + r[k..];
    }
    assert s[..|s|] == s;
  }

  lemma DistinctPermuted<T>(s: seq<T>, r: seq<T>)
    requires multiset(s) == multiset(r) && Distinct(s)
    ensures Distinct(r)
  {
    forall i, j | 0 <= i < j < |r|
      ensures r[i] != r[j]
    {
      if r[i] == r[j] {
        assert r == r[..j] + r[j..];
        assert r[i] in r[..j] && r[j] in r[j..];
        assert multiset(r)[r[i]] >= 2;
        DistinctCount(s, r[i]);
      }
    }
  }

  lemma {:induction false} DistinctCount<T>(s: seq<T>, x: T)
    requires Distinct(s)
    ensures multiset(s)[x] <= 1
  {
    if s != [] {
      assert s == [s[0]] + s[1..];
      DistinctCount(s[1..], x);
      assert s[0] !in s[1..];
    }
  }

  /** No two of the ranges share a byte. */
  ghost predicate Apart(s: seq<Extent>)
  {
    forall i, j :: 0 <= i < j < |s| ==> s[i].hi <= s[j].lo || s[j].hi <= s[i].lo
  }

  /** Ranges that are apart come one after another once they are sorted. */
  lemma ApartSorted<T>(s: seq<T>, r: seq<T>, S: seq<Extent>, R: seq<Extent>, span: T -> Extent)
    requires multiset(s) == multiset(r) && |S| == |s| && |R| == |r|
    requires (forall i :: 0 <= i < |s| ==> S[i] == span(s[i])) && (forall i :: 0 <= i < |r| ==> R[i] == span(r[i]))
    requires AllGood(S) && Apart(S) && Ascending(R)
    ensures Disjoint(R)
  {
    forall i, j | 0 <= i < j < |R|
      ensures R[i].hi <= R[j].lo
    {
      assert r[i] in multiset(r) && r[j] in multiset(r);
      var k :| 0 <= k < |s| && s[k] == r[i];
      var l :| 0 <= l < |s| && s[l] == r[j];
      if k == l {
        TwiceInSequence(r, i, j);
        k, l := TwoPositions(s, r[i]);
      }
      assert S[k] == R[i] && S[l] == R[j] && S[k].Good() && S[l].Good();
    }
  }

  lemma ApartIsTidy(functions: seq<Function>, lines: seq<Line>, fs: seq<Function>, ls: seq<Line>)
    requires multiset(fs) == multiset(functions) && multiset(ls) == multiset(lines) && SweepInput(fs, ls)
    requires AllGood(FunctionSpans(functions)) && AllGood(LineSpans(lines))
    ensures Apart(FunctionSpans(functions)) && Apart(LineSpans(lines)) ==> Tidy(FunctionSpans(fs), ls)
  {
    if Apart(FunctionSpans(functions)) && Apart(LineSpans(lines)) {
      ApartSorted(functions, fs, FunctionSpans(functions), FunctionSpans(fs), (f: Function) => f.Span());
      ApartSorted(lines, ls, LineSpans(lines), LineSpans(ls), (l: Line) => l.Span());
    }
  }

  /** `AssignLinesToFunctions`: sorts both vectors, then sweeps. If no two functions and
      no two lines share a byte, every function receives exactly its intersections with
      the lines, in address order. */
  method AssignLinesToFunctions(functions: seq<Function>, lines: seq<Line>)
    returns (fs: seq<Function>, ls: seq<Line>, citedFunctions: seq<nat>, citedLines: seq<nat>,
             ghost got: seq<seq<Line>>, ghost steps: nat)
    requires Distinct(functions)
    requires forall f :: f in functions ==> f.Span().Good() && f.lines == []
    requires forall l :: l in lines ==> l.Span().Good()
    modifies functions
    ensures multiset(fs) == multiset(functions) && multiset(ls) == multiset(lines) && SweepInput(fs, ls)
    ensures |got| == |fs| && forall i :: 0 <= i < |fs| ==> fs[i].lines == got[i]
    ensures Sound(FunctionSpans(fs), ls, got) && steps <= 2 * (|fs| + |ls|)
    ensures Apart(FunctionSpans(functions)) && Apart(LineSpans(lines)) ==>
              Exact(FunctionSpans(fs), ls, Progress(got, citedFunctions, citedLines, None))
  {
    fs := SortByAddress(functions, (f: Function) => f.address);
    ls := SortByAddress(lines, (l: Line) => l.address);
    forall i | 0 <= i < |fs|
      ensures fs[i] in functions
    {
      assert fs[i] in multiset(fs);
    }
    forall i | 0 <= i < |ls|
      ensures ls[i] in lines
    {
      assert ls[i] in multiset(ls);
    }
    DistinctPermuted(functions, fs);
    citedFunctions, citedLines, got, steps := Sweep(fs, ls);
    ApartIsTidy(functions, lines, fs, ls);
  }
}
