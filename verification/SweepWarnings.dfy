/** What the sweep warns about: functions not fully covered by lines, and lines
    not fully covered by functions.
 */
module SweepWarnings {
  import opened Machine
  import opened LineTables
  import opened SweepSteps

  /** The items cited so far, each once, in order; the last one is `last_*_cited`. */
  predicate CitedLast(cited: seq<nat>, k: nat)
  {
    cited != [] && cited[|cited| - 1] == k
  }

  function Cite(cited: seq<nat>, k: nat): seq<nat>
  {
    if CitedLast(cited, k) then cited else cited + [k]
  }

  ghost predicate OnceEach(cited: seq<nat>, k: nat, bound: nat)
  {
    && (forall i, j :: 0 <= i < j < |cited| ==> cited[i] < cited[j])
    && (forall i :: 0 <= i < |cited| ==> cited[i] <= k && cited[i] < bound)
  }

  lemma CiteOnce(cited: seq<nat>, k: nat, bound: nat)
    requires OnceEach(cited, k, bound) && k < bound
    ensures OnceEach(Cite(cited, k), k, bound)
    ensures forall i :: i in Cite(cited, k) <==> i in cited || i == k
  {
    var n := |cited| - 1;
    if !CitedLast(cited, k) && cited != [] {
      assert cited[n] < k;
    }
  }

  // ----- Functions

  /** Some byte of `f` below `c` is in no line. */
  ghost predicate Gap(f: Extent, L: seq<Extent>, c: int)
  {
    exists a :: f.lo <= a < Min(f.hi, c) && !Covers(L, a)
  }

  ghost predicate FunctionsCited(F: seq<Extent>, L: seq<Extent>, p: Pos, cited: seq<nat>)
  {
    && OnceEach(cited, p.fi, |F|)
    && forall i :: 0 <= i < |F| ==> (i in cited <==> Gap(F[i], L, p.cur))
  }

  /** A step opens a gap in the current function or in none. */
  lemma GapStep(F: seq<Extent>, L: seq<Extent>, p: Pos, n: int, i: nat)
    requires AllGood(F) && AllGood(L) && Disjoint(F) && Disjoint(L) && At(F, L, p) && p.cur < n
    requires Quiet(F, p.fi, p.cur, n) && Quiet(L, p.li, p.cur, n) && i < |F|
    ensures Gap(F[i], L, n) <==>
            Gap(F[i], L, p.cur) || (i == p.fi && In(F, p.fi, p.cur) && !In(L, p.li, p.cur))
  {
    if a :| F[i].lo <= a < Min(F[i].hi, n) && !Covers(L, a) && p.cur <= a {
      Uniform(F, p.fi, p.cur, n, a);
      Uniform(L, p.li, p.cur, n, a);
      assert F[i].Has(a);
      assert Covers(F, a);
    }
    if i == p.fi && In(F, p.fi, p.cur) && !In(L, p.li, p.cur) {
      Uniform(L, p.li, p.cur, n, p.cur);
      assert F[i].lo <= p.cur < Min(F[i].hi, n) && !Covers(L, p.cur);
    }
    if Gap(F[i], L, p.cur) {
      var a :| F[i].lo <= a < Min(F[i].hi, p.cur) && !Covers(L, a);
      assert F[i].lo <= a < Min(F[i].hi, n) && !Covers(L, a);
    }
  }

  /** Every step keeps the list of cited functions exact. */
  lemma FunctionsCitedStep(F: seq<Extent>, ls: seq<Line>, p: Pos, q: Pos, cited: seq<nat>, cited': seq<nat>)
    requires Tidy(F, ls) && Step(F, LineSpans(ls), p, q) && FunctionsCited(F, LineSpans(ls), p, cited)
    requires cited' == if In(F, p.fi, p.cur) && !In(LineSpans(ls), p.li, p.cur) then Cite(cited, p.fi) else cited
    ensures FunctionsCited(F, LineSpans(ls), q, cited')
  {
    var L := LineSpans(ls);
    StepFacts(F, ls, p, q);
    if In(F, p.fi, p.cur) && !In(L, p.li, p.cur) {
      CiteOnce(cited, p.fi, |F|);
    }
    forall i | 0 <= i < |F|
      ensures i in cited' <==> Gap(F[i], L, q.cur)
    {
      GapStep(F, L, p, q.cur, i);
    }
  }

  // ----- Lines

  /** Some byte of `l` below `c` is in a function. */
  ghost predicate Used(F: seq<Extent>, l: Extent, c: int)
  {
    exists b :: l.lo <= b < Min(l.hi, c) && Covers(F, b)
  }

  /** The rest of `l` from `a` on is padding: some earlier byte of `l` is in a
      function, none from `a` on is, and a function starts where `l` ends. */
  ghost predicate Padding(F: seq<Extent>, l: Extent, a: int)
  {
    && (exists i :: 0 <= i < |F| && F[i].lo == l.hi)
    && Used(F, l, a)
    && forall x :: a <= x < l.hi ==> !Covers(F, x)
  }

  /** Some byte of `l` below `c` is in no function and is not padding. */
  ghost predicate Stray(F: seq<Extent>, l: Extent, c: int)
  {
    exists a :: l.lo <= a < Min(l.hi, c) && !Covers(F, a) && !Padding(F, l, a)
  }

  ghost predicate LinesCited(F: seq<Extent>, L: seq<Extent>, p: Pos, cited: seq<nat>, lastUsed: Option<nat>)
  {
    && OnceEach(cited, p.li, |L|)
    && (forall j :: 0 <= j < |L| ==> (j in cited <==> Stray(F, L[j], p.cur)))
    && (lastUsed.Some? ==> lastUsed.value <= p.li)
    && (p.li < |L| ==> (lastUsed == Some(p.li) <==> Used(F, L[p.li], p.cur)))
  }

  /** The test the sweep makes before it warns about the current line. */
  predicate LooksLikePadding(F: seq<Extent>, L: seq<Extent>, p: Pos, lastUsed: Option<nat>)
    requires p.li < |L|
  {
    p.fi < |F| && lastUsed == Some(p.li) && F[p.fi].lo == L[p.li].hi
  }

  ghost predicate Calm(F: seq<Extent>, L: seq<Extent>, p: Pos, n: int)
  {
    && AllGood(F) && AllGood(L) && Disjoint(F) && Disjoint(L) && At(F, L, p) && p.cur < n
    && Quiet(F, p.fi, p.cur, n) && Quiet(L, p.li, p.cur, n)
  }

  /** No function covers a byte from `c` up to the start of the next one. */
  lemma NoneUpTo(F: seq<Extent>, k: nat, c: int, x: int)
    requires AllGood(F) && Disjoint(F) && Passed(F, k, c) && c <= x && (k < |F| ==> x < F[k].lo)
    ensures !Covers(F, x)
  {
    forall i | 0 <= i < |F|
      ensures !F[i].Has(x)
    {
      assert k < i ==> F[k].hi <= F[i].lo;
    }
  }

  lemma LooksLikePaddingRight(F: seq<Extent>, L: seq<Extent>, p: Pos, n: int, lastUsed: Option<nat>, a: int)
    requires Calm(F, L, p, n) && p.li < |L| && p.cur <= a < n && !In(F, p.fi, p.cur) && In(L, p.li, p.cur)
    requires lastUsed == Some(p.li) <==> Used(F, L[p.li], p.cur)
    requires LooksLikePadding(F, L, p, lastUsed)
    ensures Padding(F, L[p.li], a)
  {
    var l := L[p.li];
    var b :| l.lo <= b < Min(l.hi, p.cur) && Covers(F, b);
    assert l.lo <= b < Min(l.hi, a) && Covers(F, b);
    forall x | a <= x < l.hi
      ensures !Covers(F, x)
    {
      NoneUpTo(F, p.fi, p.cur, x);
    }
  }

  lemma PaddingLooksLike(F: seq<Extent>, L: seq<Extent>, p: Pos, n: int, lastUsed: Option<nat>, a: int)
    requires Calm(F, L, p, n) && p.li < |L| && p.cur <= a < n && !In(F, p.fi, p.cur) && In(L, p.li, p.cur)
    requires lastUsed == Some(p.li) <==> Used(F, L[p.li], p.cur)
    requires Padding(F, L[p.li], a)
    ensures LooksLikePadding(F, L, p, lastUsed)
  {
    var l := L[p.li];
    var b :| l.lo <= b < Min(l.hi, a) && Covers(F, b);
    if p.cur <= b {
      Uniform(F, p.fi, p.cur, n, b);
    }
    assert l.lo <= b < Min(l.hi, p.cur) && Covers(F, b);
    var i :| 0 <= i < |F| && F[i].lo == l.hi;
    assert p.fi <= i;
    if p.fi < i {
      assert F[p.fi].hi <= F[i].lo;
      assert F[p.fi].Has(F[p.fi].lo);
      assert Covers(F, F[p.fi].lo);
    }
  }

  /** A step makes the current line stray, or none. */
  lemma StrayStep(F: seq<Extent>, L: seq<Extent>, p: Pos, n: int, lastUsed: Option<nat>, j: nat)
    requires Calm(F, L, p, n) && j < |L|
    requires p.li < |L| ==> (lastUsed == Some(p.li) <==> Used(F, L[p.li], p.cur))
    ensures Stray(F, L[j], n) <==>
            || Stray(F, L[j], p.cur)
            || (j == p.li && In(L, p.li, p.cur) && !In(F, p.fi, p.cur) && !LooksLikePadding(F, L, p, lastUsed))
  {
    if a :| L[j].lo <= a < Min(L[j].hi, n) && !Covers(F, a) && !Padding(F, L[j], a) && p.cur <= a {
      Uniform(F, p.fi, p.cur, n, a);
      Uniform(L, p.li, p.cur, n, a);
      assert L[j].Has(a);
      assert Covers(L, a);
      if LooksLikePadding(F, L, p, lastUsed) {
        LooksLikePaddingRight(F, L, p, n, lastUsed, a);
      }
    }
    if j == p.li && In(L, p.li, p.cur) && !In(F, p.fi, p.cur) && !LooksLikePadding(F, L, p, lastUsed) {
      Uniform(F, p.fi, p.cur, n, p.cur);
      if Padding(F, L[j], p.cur) {
        PaddingLooksLike(F, L, p, n, lastUsed, p.cur);
      }
      assert L[j].lo <= p.cur < Min(L[j].hi, n) && !Covers(F, p.cur) && !Padding(F, L[j], p.cur);
    }
    if Stray(F, L[j], p.cur) {
      var a :| L[j].lo <= a < Min(L[j].hi, p.cur) && !Covers(F, a) && !Padding(F, L[j], a);
      assert L[j].lo <= a < Min(L[j].hi, n) && !Covers(F, a) && !Padding(F, L[j], a);
    }
  }

  /** `last_line_used` tells whether the current line has been used. */
  lemma UsedStep(F: seq<Extent>, ls: seq<Line>, p: Pos, q: Pos, lastUsed: Option<nat>, lastUsed': Option<nat>)
    requires Tidy(F, ls) && Step(F, LineSpans(ls), p, q)
    requires lastUsed.Some? ==> lastUsed.value <= p.li
    requires p.li < |ls| ==> (lastUsed == Some(p.li) <==> Used(F, LineSpans(ls)[p.li], p.cur))
    requires lastUsed' == if In(F, p.fi, p.cur) && In(LineSpans(ls), p.li, p.cur) then Some(p.li) else lastUsed
    ensures lastUsed'.Some? ==> lastUsed'.value <= q.li
    ensures q.li < |ls| ==> (lastUsed' == Some(q.li) <==> Used(F, LineSpans(ls)[q.li], q.cur))
  {
    var L := LineSpans(ls);
    StepFacts(F, ls, p, q);
    if q.li < |ls| {
      var l := L[q.li];
      if q.li != p.li {
        assert L[p.li].hi <= l.lo;
      } else {
        if b :| l.lo <= b < Min(l.hi, q.cur) && Covers(F, b) && p.cur <= b {
          Uniform(F, p.fi, p.cur, q.cur, b);
        }
        if In(F, p.fi, p.cur) && In(L, p.li, p.cur) {
          Uniform(F, p.fi, p.cur, q.cur, p.cur);
          assert l.lo <= p.cur < Min(l.hi, q.cur) && Covers(F, p.cur);
        }
        if Used(F, l, p.cur) {
          var b :| l.lo <= b < Min(l.hi, p.cur) && Covers(F, b);
          assert l.lo <= b < Min(l.hi, q.cur) && Covers(F, b);
        }
      }
    }
  }

  /** Every step keeps the list of cited lines exact. */
  lemma LinesCitedStep(F: seq<Extent>, ls: seq<Line>, p: Pos, q: Pos,
                       cited: seq<nat>, cited': seq<nat>, lastUsed: Option<nat>, lastUsed': Option<nat>)
    requires Tidy(F, ls) && Step(F, LineSpans(ls), p, q) && LinesCited(F, LineSpans(ls), p, cited, lastUsed)
    requires lastUsed' == if In(F, p.fi, p.cur) && In(LineSpans(ls), p.li, p.cur) then Some(p.li) else lastUsed
    requires cited' ==
             if In(LineSpans(ls), p.li, p.cur) && !In(F, p.fi, p.cur)
                && !LooksLikePadding(F, LineSpans(ls), p, lastUsed)
             then Cite(cited, p.li) else cited
    ensures LinesCited(F, LineSpans(ls), q, cited', lastUsed')
  {
    var L := LineSpans(ls);
    StepFacts(F, ls, p, q);
    UsedStep(F, ls, p, q, lastUsed, lastUsed');
    if In(L, p.li, p.cur) && !In(F, p.fi, p.cur) && !LooksLikePadding(F, L, p, lastUsed) {
      CiteOnce(cited, p.li, |L|);
    }
    forall j | 0 <= j < |L|
      ensures j in cited' <==> Stray(F, L[j], q.cur)
    {
      StrayStep(F, L, p, q.cur, lastUsed, j);
    }
  }
}
