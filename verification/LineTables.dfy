/** Source lines and functions with their address ranges, and what line tables
    say about them. A range may end at 2^64, so its end is kept unwrapped.
 */
module LineTables {
  import opened Machine

  datatype Line = Line(address: U64, size: U64, file: string, number: int) {
    function Span(): (s: Extent) { Extent(address, address + size) }
  }

  class Function {
    const name: string
    const address: U64
    const size: U64
    var lines: seq<Line>

    constructor (name: string, address: U64, size: U64)
      ensures this.name == name && this.address == address && this.size == size && lines == []
    {
      this.name, this.address, this.size, lines := name, address, size, [];
    }

    function Span(): (s: Extent) { Extent(address, address + size) }
  }

  /** The bytes from `lo` up to but not including `hi`. */
  datatype Extent = Extent(lo: int, hi: int) {
    /** What a line or function must be for the sweep: a non-empty range above
        zero that does not run past the end of the address space. */
    predicate Good() { 0 < lo < hi <= TWO_64 }
    predicate Has(a: int) { lo <= a < hi }
  }

  function Max(a: int, b: int): int { if a < b then b else a }
  function Min(a: int, b: int): int { if a < b then a else b }

  ghost predicate AllGood(s: seq<Extent>)
  {
    forall i :: 0 <= i < |s| ==> s[i].Good()
  }

  ghost predicate Ascending(s: seq<Extent>)
  {
    forall i, j :: 0 <= i < j < |s| ==> s[i].lo <= s[j].lo
  }

  ghost predicate Disjoint(s: seq<Extent>)
  {
    forall i, j :: 0 <= i < j < |s| ==> s[i].hi <= s[j].lo
  }

  ghost predicate Covers(s: seq<Extent>, a: int)
  {
    exists i :: 0 <= i < |s| && s[i].Has(a)
  }

  function LineSpans(ls: seq<Line>): (s: seq<Extent>)
    ensures |s| == |ls| && forall i :: 0 <= i < |ls| ==> s[i] == ls[i].Span()
  {
    seq(|ls|, i requires 0 <= i < |ls| => ls[i].Span())
  }

  function FunctionSpans(fs: seq<Function>): (s: seq<Extent>)
    ensures |s| == |fs| && forall i :: 0 <= i < |fs| ==> s[i] == fs[i].Span()
  {
    seq(|fs|, i requires 0 <= i < |fs| => fs[i].Span())
  }

  // ----- The specification of the sweep

  /** The part of `l` that lies in `f`, if any, with `l`'s file and number. */
  ghost function Piece(f: Extent, l: Line): seq<Line>
    requires f.Good() && l.Span().Good()
  {
    var lo, hi := Max(f.lo, l.address), Min(f.hi, l.address + l.size);
    if lo < hi then [Line(lo, hi - lo, l.file, l.number)] else []
  }

  /** All non-empty intersections of `f` with the lines `ls`, in their order. */
  ghost function Pieces(f: Extent, ls: seq<Line>): seq<Line>
    requires f.Good() && AllGood(LineSpans(ls))
    decreases |ls|
  {
    if ls == [] then []
    else
      assert forall i :: 0 <= i < |ls| ==> ls[i].Span() == LineSpans(ls)[i];
      assert AllGood(LineSpans(ls[..|ls| - 1]));
      Pieces(f, ls[..|ls| - 1]) + Piece(f, ls[|ls| - 1])
  }

  /** Lines from `k` on that miss `f` contribute nothing. */
  lemma {:induction false} PiecesSettled(f: Extent, ls: seq<Line>, k: nat)
    requires f.Good() && AllGood(LineSpans(ls)) && k <= |ls|
    requires forall i :: k <= i < |ls| ==> f.hi <= ls[i].address || ls[i].address + ls[i].size <= f.lo
    ensures AllGood(LineSpans(ls[..k])) && Pieces(f, ls) == Pieces(f, ls[..k])
    decreases |ls|
  {
    assert forall i :: 0 <= i < |ls| ==> ls[i].Span() == LineSpans(ls)[i];
    assert AllGood(LineSpans(ls[..k]));
    if k == |ls| {
      assert ls[..k] == ls;
    } else {
      var n := |ls| - 1;
      assert AllGood(LineSpans(ls[..n]));
      PiecesSettled(f, ls[..n], k);
      assert ls[..n][..k] == ls[..k];
      assert Piece(f, ls[n]) == [];
    }
  }

  /** One more line: its piece comes last. */
  lemma PiecesGrow(f: Extent, ls: seq<Line>, k: nat)
    requires f.Good() && AllGood(LineSpans(ls)) && k < |ls|
    ensures AllGood(LineSpans(ls[..k])) && AllGood(LineSpans(ls[..k + 1])) && ls[k].Span().Good()
    ensures Pieces(f, ls[..k + 1]) == Pieces(f, ls[..k]) + Piece(f, ls[k])
  {
    assert forall i :: 0 <= i < |ls| ==> ls[i].Span() == LineSpans(ls)[i];
    assert ls[..k + 1][..k] == ls[..k];
  }

  /** For disjoint lines in order, pieces come in address order without overlap,
      and never reach past the last line. */
  lemma {:induction false} PiecesAscend(f: Extent, ls: seq<Line>)
    requires f.Good() && AllGood(LineSpans(ls)) && Disjoint(LineSpans(ls))
    ensures forall i, j :: 0 <= i < j < |Pieces(f, ls)| ==>
              Pieces(f, ls)[i].address + Pieces(f, ls)[i].size <= Pieces(f, ls)[j].address
    ensures forall i :: 0 <= i < |Pieces(f, ls)| ==>
              ls != [] && Pieces(f, ls)[i].address + Pieces(f, ls)[i].size <= LineSpans(ls)[|ls| - 1].hi
    decreases |ls|
  {
    if ls != [] {
      var n := |ls| - 1;
      assert forall i :: 0 <= i < |ls| ==> ls[i].Span() == LineSpans(ls)[i];
      var rest := ls[..n];
      assert forall i :: 0 <= i < n ==> LineSpans(rest)[i] == LineSpans(ls)[i];
      PiecesAscend(f, rest);
      var Q, r := Pieces(f, rest), Piece(f, ls[n]);
      assert Pieces(f, ls) == Q + r;
      forall i | 0 <= i < |Q|
        ensures Q[i].address + Q[i].size <= ls[n].address
      {
        assert LineSpans(ls)[n - 1].hi <= LineSpans(ls)[n].lo;
      }
      assert LineSpans(ls)[n] == Extent(ls[n].address, ls[n].address + ls[n].size);
      forall i | 0 <= i < |Q + r|
        ensures (Q + r)[i].address + (Q + r)[i].size <= LineSpans(ls)[n].hi
      {
        assert i < |Q| || (Q + r)[i] == r[0];
      }
    } else {
      assert Pieces(f, ls) == [];
    }
  }

  /** A byte of `f` is in a piece exactly when it is in a line, and the piece
      tells that line's file and number. */
  lemma {:induction false} PiecesTell(f: Extent, ls: seq<Line>, a: int, file: string, number: int)
    requires f.Good() && AllGood(LineSpans(ls)) && f.Has(a)
    ensures (exists l :: l in Pieces(f, ls) && l.Span().Has(a) && l.file == file && l.number == number) <==>
            (exists l :: l in ls && l.Span().Has(a) && l.file == file && l.number == number)
    decreases |ls|
  {
    if ls != [] {
      var n := |ls| - 1;
      var rest, last := ls[..n], ls[n];
      assert ls == rest + [last];
      assert forall i :: 0 <= i < |ls| ==> ls[i].Span() == LineSpans(ls)[i];
      assert AllGood(LineSpans(rest));
      PiecesTell(f, rest, a, file, number);
      if last.Span().Has(a) {
        assert Piece(f, last) != [];
        assert Piece(f, last)[0] in Pieces(f, ls);
      }
    }
  }
}
