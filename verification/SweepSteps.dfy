/** One step of the sweep over functions and lines, as a relation on positions,
    and the invariants every step keeps.
 */
module SweepSteps {
  import opened Machine
  import opened LineTables

  /** The sweep stands at address `cur`, before function `fi` and line `li`. */
  datatype Pos = Pos(fi: nat, li: nat, cur: int)

  /** Everything before the iterators ends by `cur`; what they refer to does not. */
  ghost predicate At(F: seq<Extent>, L: seq<Extent>, p: Pos)
  {
    Passed(F, p.fi, p.cur) && Passed(L, p.li, p.cur)
  }

  ghost predicate Passed(s: seq<Extent>, k: nat, c: int)
  {
    && k <= |s|
    && (k < |s| ==> c < s[k].hi)
    && forall i :: 0 <= i < k ==> s[i].hi <= c
  }

  /** The current byte is in function `fi`; in line `li`. */
  predicate In(s: seq<Extent>, k: nat, c: int)
  {
    k < |s| && s[k].lo <= c
  }

  /** The address, not wrapped, at which the state of the current byte changes. */
  function Next(F: seq<Extent>, L: seq<Extent>, p: Pos): int
    requires p.fi <= |F| && p.li <= |L| && (p.fi < |F| || p.li < |L|)
  {
    if In(F, p.fi, p.cur) then
      if In(L, p.li, p.cur) then Min(F[p.fi].hi, L[p.li].hi)
      else if p.li < |L| && L[p.li].lo < F[p.fi].hi then L[p.li].lo
      else F[p.fi].hi
    else if In(L, p.li, p.cur) then
      if p.fi < |F| && F[p.fi].lo < L[p.li].hi then F[p.fi].lo
      else L[p.li].hi
    else if p.fi < |F| && p.li < |L| then Min(F[p.fi].lo, L[p.li].lo)
    else if p.fi < |F| then F[p.fi].lo
    else L[p.li].lo
  }

  /** The sweep may go from `p` to `q`. */
  ghost predicate Step(F: seq<Extent>, L: seq<Extent>, p: Pos, q: Pos)
  {
    && At(F, L, p) && (p.fi < |F| || p.li < |L|)
    && q.cur == Next(F, L, p)
    && p.fi <= q.fi && p.li <= q.li && At(F, L, q)
  }

  /** The state of the bytes does not change before the next transition. */
  ghost predicate Quiet(s: seq<Extent>, k: nat, c: int, n: int)
  {
    k < |s| ==> n <= if s[k].lo <= c then s[k].hi else s[k].lo
  }

  lemma NextFacts(F: seq<Extent>, L: seq<Extent>, p: Pos)
    requires AllGood(F) && AllGood(L) && At(F, L, p) && (p.fi < |F| || p.li < |L|)
    ensures p.cur < Next(F, L, p) <= TWO_64
    ensures Quiet(F, p.fi, p.cur, Next(F, L, p)) && Quiet(L, p.li, p.cur, Next(F, L, p))
  {
  }

  /** Bytes from `c` up to `n` are covered all or none. */
  lemma Uniform(s: seq<Extent>, k: nat, c: int, n: int, a: int)
    requires AllGood(s) && Disjoint(s) && Passed(s, k, c) && Quiet(s, k, c, n) && c <= a < n
    ensures Covers(s, a) <==> In(s, k, c)
    ensures forall i :: 0 <= i < |s| && s[i].Has(a) ==> i == k
  {
    assert forall i :: k < i < |s| ==> s[k].hi <= s[i].lo;
    forall i | 0 <= i < |s| && s[i].Has(a)
      ensures i == k && s[k].lo <= c
    {
    }
    if In(s, k, c) {
      assert s[k].Has(a);
    }
  }

  /** Disjoint ranges are passed one at a time. */
  lemma PassOne(s: seq<Extent>, k: nat, c: int, n: int, k': nat)
    requires AllGood(s) && Disjoint(s) && Passed(s, k, c) && Quiet(s, k, c, n) && c < n
    requires k <= k' && Passed(s, k', n)
    ensures k' == if k < |s| && s[k].hi == n then k + 1 else k
  {
    if k + 1 < |s| {
      assert s[k].hi <= s[k + 1].lo;
    }
    assert k < k' ==> s[k].hi <= n;
  }

  // ----- The pieces handed out

  /** `got[i]` are the lines function `i` has received so far. */
  ghost predicate Handed(F: seq<Extent>, ls: seq<Line>, p: Pos, got: seq<seq<Line>>)
    requires AllGood(F) && AllGood(LineSpans(ls))
  {
    && |got| == |F| && p.fi <= |F| && p.li <= |ls|
    && AllGood(LineSpans(ls[..p.li]))
    && (forall i :: 0 <= i < p.fi ==> got[i] == Pieces(F[i], ls))
    && (p.fi < |F| ==> got[p.fi] == Pieces(F[p.fi], ls[..p.li]))
    && (forall i :: p.fi < i < |F| ==> got[i] == [])
    && (In(F, p.fi, p.cur) && In(LineSpans(ls), p.li, p.cur) ==>
          p.cur == Max(F[p.fi].lo, ls[p.li].address))
  }

  /** What one step adds to the current function. */
  ghost function Handout(F: seq<Extent>, ls: seq<Line>, p: Pos, n: int): seq<Line>
    requires p.cur < n <= TWO_64 && 0 <= p.cur && p.li <= |ls| && n - p.cur < TWO_64
  {
    if In(F, p.fi, p.cur) && In(LineSpans(ls), p.li, p.cur)
    then [Line(p.cur, n - p.cur, ls[p.li].file, ls[p.li].number)] else []
  }

  ghost predicate Tidy(F: seq<Extent>, ls: seq<Line>)
  {
    AllGood(F) && AllGood(LineSpans(ls)) && Disjoint(F) && Disjoint(LineSpans(ls))
  }

  lemma StepFacts(F: seq<Extent>, ls: seq<Line>, p: Pos, q: Pos)
    requires Tidy(F, ls) && Step(F, LineSpans(ls), p, q)
    ensures p.cur < q.cur <= TWO_64
    ensures Quiet(F, p.fi, p.cur, q.cur) && Quiet(LineSpans(ls), p.li, p.cur, q.cur)
    ensures q.fi == if p.fi < |F| && F[p.fi].hi == q.cur then p.fi + 1 else p.fi
    ensures q.li == if p.li < |ls| && LineSpans(ls)[p.li].hi == q.cur then p.li + 1 else p.li
  {
    NextFacts(F, LineSpans(ls), p);
    PassOne(F, p.fi, p.cur, q.cur, q.fi);
    PassOne(LineSpans(ls), p.li, p.cur, q.cur, q.li);
  }

  /** The current function lives on: it holds the pieces of the lines passed. */
  lemma HandedOn(F: seq<Extent>, ls: seq<Line>, p: Pos, q: Pos, got: seq<seq<Line>>)
    requires Tidy(F, ls) && Step(F, LineSpans(ls), p, q) && 0 < p.cur && Handed(F, ls, p, got)
    requires p.cur < q.cur <= TWO_64 && p.fi == q.fi < |F|
    ensures AllGood(LineSpans(ls[..q.li]))
    ensures got[p.fi] + Handout(F, ls, p, q.cur) == Pieces(F[p.fi], ls[..q.li])
  {
    StepFacts(F, ls, p, q);
    if q.li != p.li {
      PiecesGrow(F[p.fi], ls, p.li);
    }
  }

  /** The current function ends: it holds all its pieces. */
  lemma {:induction false} HandedOver(F: seq<Extent>, ls: seq<Line>, p: Pos, q: Pos, got: seq<seq<Line>>)
    requires Tidy(F, ls) && Step(F, LineSpans(ls), p, q) && 0 < p.cur && Handed(F, ls, p, got)
    requires p.cur < q.cur <= TWO_64 && p.fi < q.fi
    ensures got[p.fi] + Handout(F, ls, p, q.cur) == Pieces(F[p.fi], ls)
  {
    StepFacts(F, ls, p, q);
    var k := if In(LineSpans(ls), p.li, p.cur) then p.li + 1 else p.li;
    NoneBeyond(ls, p.li, k, q.cur);
    PiecesSettled(F[p.fi], ls, k);
    if k != p.li {
      PiecesGrow(F[p.fi], ls, p.li);
      HandoutIsPiece(F, ls, p, q);
    }
  }

  lemma NoneBeyond(ls: seq<Line>, i: nat, k: nat, c: int)
    requires AllGood(LineSpans(ls)) && Disjoint(LineSpans(ls)) && i <= k <= |ls| && k <= i + 1
    requires i < |ls| ==> c <= if k == i then LineSpans(ls)[i].lo else LineSpans(ls)[i].hi
    ensures forall j :: k <= j < |ls| ==> c <= ls[j].address
  {
    forall j | k <= j < |ls|
      ensures c <= LineSpans(ls)[j].lo
    {
      assert i < j ==> LineSpans(ls)[i].hi <= LineSpans(ls)[j].lo;
    }
    assert forall j :: k <= j < |ls| ==> LineSpans(ls)[j].lo == ls[j].address;
  }

  /** A step through a function and a line covers their whole intersection. */
  lemma HandoutIsPiece(F: seq<Extent>, ls: seq<Line>, p: Pos, q: Pos)
    requires AllGood(F) && AllGood(LineSpans(ls)) && Step(F, LineSpans(ls), p, q)
    requires 0 < p.cur < q.cur <= TWO_64
    requires In(F, p.fi, p.cur) && In(LineSpans(ls), p.li, p.cur)
    requires p.cur == Max(F[p.fi].lo, ls[p.li].address)
    ensures LineSpans(ls)[p.li] == ls[p.li].Span()
    ensures Handout(F, ls, p, q.cur) == Piece(F[p.fi], ls[p.li])
  {
  }

  /** A function that starts at or after `c` has no piece of a line passed by `c`. */
  lemma NothingYet(f: Extent, ls: seq<Line>, k: nat, c: int)
    requires f.Good() && AllGood(LineSpans(ls)) && Passed(LineSpans(ls), k, c) && c <= f.lo
    ensures AllGood(LineSpans(ls[..k])) && Pieces(f, ls[..k]) == []
  {
    assert forall i :: 0 <= i < k ==> LineSpans(ls)[i] == ls[..k][i].Span();
    PiecesSettled(f, ls[..k], 0);
    assert ls[..k][..0] == [];
  }

  /** After a step, an intersection under way has just begun. */
  lemma FreshStart(F: seq<Extent>, ls: seq<Line>, p: Pos, q: Pos)
    requires Tidy(F, ls) && Step(F, LineSpans(ls), p, q)
    requires In(F, q.fi, q.cur) && In(LineSpans(ls), q.li, q.cur)
    ensures q.cur == Max(F[q.fi].lo, LineSpans(ls)[q.li].lo)
  {
    StepFacts(F, ls, p, q);
    var L := LineSpans(ls);
    assert p.fi < q.fi ==> F[p.fi].hi <= F[q.fi].lo;
    assert p.li < q.li ==> L[p.li].hi <= L[q.li].lo;
  }

  /** Every step hands out exactly the intersections it passes. */
  lemma HandedStep(F: seq<Extent>, ls: seq<Line>, p: Pos, q: Pos, got: seq<seq<Line>>, got': seq<seq<Line>>)
    requires Tidy(F, ls) && Step(F, LineSpans(ls), p, q) && 0 < p.cur && Handed(F, ls, p, got)
    requires p.cur < q.cur <= TWO_64
    requires got' == if p.fi < |F| then got[p.fi := got[p.fi] + Handout(F, ls, p, q.cur)] else got
    ensures Handed(F, ls, q, got')
  {
    StepFacts(F, ls, p, q);
    assert forall i :: 0 <= i < q.li ==> LineSpans(ls)[i] == ls[..q.li][i].Span();
    if In(F, q.fi, q.cur) && In(LineSpans(ls), q.li, q.cur) {
      FreshStart(F, ls, p, q);
    }
    if p.fi < |F| {
      if q.fi == p.fi {
        HandedOn(F, ls, p, q, got);
      } else {
        HandedOver(F, ls, p, q, got);
        if q.fi < |F| {
          assert F[p.fi].hi <= F[q.fi].lo;
          NothingYet(F[q.fi], ls, q.li, q.cur);
        }
      }
    }
  }
}
