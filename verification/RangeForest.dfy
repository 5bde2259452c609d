/** The value of a contained range map: an ordered forest of nested address
    ranges, and the flat set of ranges it stands for.
 */
module RangeForest {
  import opened Machine

  datatype Range<+E> = Range(base: U64, high: U64, entry: E) {
    predicate Contains(a: U64) { base <= a <= high }
    predicate Encloses(b: U64, h: U64) { base <= b && h <= high }
  }

  datatype Tree<+E> = Tree(base: U64, high: U64, entry: E, kids: seq<Tree<E>>) {
    function Top(): Range<E> { Range(base, high, entry) }
  }

  // ----- Structure

  /** Every range lies in [lo, hi], siblings are disjoint and in address order,
      and a child is strictly smaller than its parent. */
  ghost predicate WellFormed<E>(f: seq<Tree<E>>, lo: int, hi: int)
    decreases f
  {
    && Ordered(f, lo, hi)
    && (forall i :: 0 <= i < |f| ==> ProperKids(f[i]) && WellFormed(f[i].kids, f[i].base, f[i].high))
  }

  ghost predicate Ordered<E>(f: seq<Tree<E>>, lo: int, hi: int)
  {
    && (forall i :: 0 <= i < |f| ==> lo <= f[i].base <= f[i].high <= hi)
    && (forall i, j :: 0 <= i < j < |f| ==> f[i].high < f[j].base)
  }

  ghost predicate ProperKids<E>(t: Tree<E>)
  {
    forall k :: 0 <= k < |t.kids| ==> t.base < t.kids[k].base || t.kids[k].high < t.high
  }

  /** The ranges a forest stores, at any depth. */
  ghost function Ranges<E>(f: seq<Tree<E>>): set<Range<E>>
    decreases f
  {
    if f == [] then {} else TreeRanges(f[0]) + Ranges(f[1..])
  }

  ghost function TreeRanges<E>(t: Tree<E>): set<Range<E>>
    decreases t
  {
    {t.Top()} + Ranges(t.kids)
  }

  /** The number of nodes of a forest. */
  ghost function Nodes<E>(f: seq<Tree<E>>): nat
    decreases f
  {
    if f == [] then 0 else Nodes(f[..|f| - 1]) + (1 + Nodes(f[|f| - 1].kids))
  }

  lemma {:induction false} RangesOfConcat<E>(f: seq<Tree<E>>, g: seq<Tree<E>>)
    ensures Ranges(f + g) == Ranges(f) + Ranges(g)
  {
    if f == [] {
      assert f + g == g;
    } else {
      assert (f + g)[1..] == f[1..] + g;
      RangesOfConcat(f[1..], g);
    }
  }

  lemma RangesOfThree<E>(f: seq<Tree<E>>, g: seq<Tree<E>>, h: seq<Tree<E>>)
    ensures Ranges(f + g + h) == Ranges(f) + Ranges(g) + Ranges(h)
  {
    RangesOfConcat(f + g, h);
    RangesOfConcat(f, g);
  }

  lemma RangesOfOne<E>(t: Tree<E>)
    ensures Ranges([t]) == TreeRanges(t)
  {
    assert [t][1..] == [];
  }

  lemma {:induction false} TreeWithin<E>(f: seq<Tree<E>>, i: nat)
    requires i < |f|
    ensures TreeRanges(f[i]) <= Ranges(f)
  {
    if i > 0 {
      TreeWithin(f[1..], i - 1);
    }
  }

  /** Every stored range is found in one of the trees of the forest. */
  lemma {:induction false} FindTree<E>(f: seq<Tree<E>>, r: Range<E>) returns (i: nat)
    requires r in Ranges(f)
    ensures i < |f| && r in TreeRanges(f[i])
  {
    if r in TreeRanges(f[0]) {
      i := 0;
    } else {
      i := FindTree(f[1..], r);
      i := i + 1;
    }
  }

  /** Ranges of a well-formed forest stay within its bounds. */
  lemma {:induction false} RangesBounded<E>(f: seq<Tree<E>>, lo: int, hi: int, r: Range<E>)
    requires WellFormed(f, lo, hi) && r in Ranges(f)
    ensures lo <= r.base <= r.high <= hi
    decreases f
  {
    var i := FindTree(f, r);
    if r != f[i].Top() {
      RangesBounded(f[i].kids, f[i].base, f[i].high, r);
    }
  }

  // ----- Storing a range

  /** `lower_bound`: the first child whose high address is at least `a`. */
  function LowerBound<E>(f: seq<Tree<E>>, a: U64): (i: nat)
    ensures i <= |f|
    ensures forall k :: 0 <= k < i ==> f[k].high < a
    ensures i < |f| ==> a <= f[i].high
  {
    if f == [] || a <= f[0].high then 0 else 1 + LowerBound(f[1..], a)
  }

  /** One past the last child that a range ending at `h` takes over. */
  function TakenEnd<E>(f: seq<Tree<E>>, h: U64): (i: nat)
    ensures i <= |f|
  {
    var ih := LowerBound(f, h);
    if ih < |f| && h >= f[ih].base then ih + 1 else ih
  }

  function Insert<E>(f: seq<Tree<E>>, b: U64, h: U64, e: E): Option<seq<Tree<E>>>
    requires b <= h
    decreases f
  {
    var ib := LowerBound(f, b);
    if Contained(f, b, h) then
      if f[ib].base == b && f[ib].high == h then None
      else
        match Insert(f[ib].kids, b, h, e)
        case None => None
        case Some(kids) => Some(f[ib := f[ib].(kids := kids)])
    else if Crossed(f, b, h) then None
    else
      assert ib <= TakenEnd(f, h) by { LowerBoundMonotone(f, b, h); }
      Some(f[..ib] + [Tree(b, h, e, f[ib..TakenEnd(f, h)])] + f[TakenEnd(f, h)..])
  }

  /** The case of `Insert` in which a child contains the new range. */
  lemma InsertInChild<E>(f: seq<Tree<E>>, b: U64, h: U64, e: E, i: nat)
    requires b <= h && Contained(f, b, h) && i == LowerBound(f, b)
    ensures Insert(f, b, h, e) ==
            if (f[i].base == b && f[i].high == h) || Insert(f[i].kids, b, h, e).None? then None
            else Some(f[i := f[i].(kids := Insert(f[i].kids, b, h, e).value)])
  {
  }

  lemma LowerBoundMonotone<E>(f: seq<Tree<E>>, b: U64, h: U64)
    requires b <= h
    ensures LowerBound(f, b) <= LowerBound(f, h)
  {
  }

  /** The rule of the hierarchy: a new range must differ from every stored one,
      and either stand apart from it or be nested with it. */
  ghost predicate Storable<E>(rs: set<Range<E>>, b: U64, h: U64)
  {
    forall r :: r in rs ==> Compatible(r, b, h)
  }

  ghost predicate Compatible<E>(r: Range<E>, b: U64, h: U64)
  {
    && !(r.base == b && r.high == h)
    && (r.high < b || h < r.base || r.Encloses(b, h) || (b <= r.base && r.high <= h))
  }

  /** A range stored below `t` is strictly smaller than `t`. */
  lemma RangesProper<E>(t: Tree<E>, r: Range<E>)
    requires ProperKids(t) && WellFormed(t.kids, t.base, t.high) && r in Ranges(t.kids)
    ensures t.base < r.base || r.high < t.high
  {
    var i := FindTree(t.kids, r);
    if r != t.kids[i].Top() {
      RangesBounded(t.kids[i].kids, t.kids[i].base, t.kids[i].high, r);
    }
  }

  /** A range found in tree `i` lies inside the span of tree `i`. */
  lemma TreeBounded<E>(f: seq<Tree<E>>, lo: int, hi: int, i: nat, r: Range<E>)
    requires WellFormed(f, lo, hi) && i < |f| && r in TreeRanges(f[i])
    ensures f[i].base <= r.base <= r.high <= f[i].high
  {
    if r != f[i].Top() {
      RangesBounded(f[i].kids, f[i].base, f[i].high, r);
    }
  }

  /** Replacing the children of tree `i` replaces their ranges. */
  lemma RangesOfReplaced<E>(f: seq<Tree<E>>, i: nat, kids: seq<Tree<E>>, r: Range<E>)
    requires i < |f| && Ranges(kids) == Ranges(f[i].kids) + {r}
    ensures Ranges(f[i := f[i].(kids := kids)]) == Ranges(f) + {r}
  {
    var t := f[i].(kids := kids);
    assert f == f[..i] + [f[i]] + f[i + 1..];
    assert f[i := t] == f[..i] + [t] + f[i + 1..];
    RangesOfThree(f[..i], [f[i]], f[i + 1..]);
    RangesOfThree(f[..i], [t], f[i + 1..]);
    RangesOfOne(f[i]);
    RangesOfOne(t);
  }

  /** When tree `i` encloses the new range, only its descendants can object. */
  lemma StorableBelow<E>(f: seq<Tree<E>>, lo: int, hi: int, i: nat, b: U64, h: U64)
    requires WellFormed(f, lo, hi) && i < |f| && b <= h
    requires f[i].base <= b && h <= f[i].high && !(f[i].base == b && f[i].high == h)
    ensures Storable(Ranges(f), b, h) <==> Storable(Ranges(f[i].kids), b, h)
  {
    TreeWithin(f, i);
    if Storable(Ranges(f[i].kids), b, h) {
      forall r | r in Ranges(f)
        ensures Compatible(r, b, h)
      {
        var j := FindTree(f, r);
        TreeBounded(f, lo, hi, j, r);
        assert j < i || j == i || i < j;
      }
    }
  }

  /** Moving the trees in [i, j) under a new tree adds just its range. */
  lemma {:induction false} RangesOfAdopted<E>(f: seq<Tree<E>>, i: nat, j: nat, b: U64, h: U64, e: E)
    requires i <= j <= |f|
    ensures Ranges(f[..i] + [Tree(b, h, e, f[i..j])] + f[j..]) == Ranges(f) + {Range(b, h, e)}
  {
    RangesOfParent(f[..i], f[i..j], f[j..], b, h, e);
    assert f == f[..i] + f[i..j] + f[j..];
  }

  lemma RangesOfParent<E>(x: seq<Tree<E>>, y: seq<Tree<E>>, z: seq<Tree<E>>, b: U64, h: U64, e: E)
    ensures Ranges(x + [Tree(b, h, e, y)] + z) == Ranges(x + y + z) + {Range(b, h, e)}
  {
    var t := Tree(b, h, e, y);
    RangesOfThree(x, y, z);
    RangesOfThree(x, [t], z);
    RangesOfOne(t);
  }

  /** Where the children stand once a range is found to push none of them apart. */
  ghost predicate Adoptable<E>(f: seq<Tree<E>>, i: nat, j: nat, b: U64, h: U64)
  {
    && i <= j <= |f|
    && (forall k :: 0 <= k < i ==> f[k].high < b)
    && (forall k :: i <= k < j ==>
          b <= f[k].base && f[k].high <= h && (b < f[k].base || f[k].high < h))
    && (forall k :: j <= k < |f| ==> h < f[k].base)
  }

  lemma AdoptedOrdered<E>(f: seq<Tree<E>>, lo: int, hi: int, i: nat, j: nat, b: U64, h: U64, e: E)
    requires Ordered(f, lo, hi) && lo <= b <= h <= hi && Adoptable(f, i, j, b, h)
    ensures Ordered(f[..i] + [Tree(b, h, e, f[i..j])] + f[j..], lo, hi)
  {
    var t := Tree(b, h, e, f[i..j]);
    var g := f[..i] + [t] + f[j..];
    forall k, l | 0 <= k < l < |g|
      ensures g[k].high < g[l].base
    {
      SplicedAt(f, i, j, t, k);
      SplicedAt(f, i, j, t, l);
    }
    forall k | 0 <= k < |g|
      ensures lo <= g[k].base <= g[k].high <= hi
    {
      SplicedAt(f, i, j, t, k);
    }
  }

  lemma SplicedAt<T>(f: seq<T>, i: nat, j: nat, t: T, k: nat)
    requires i <= j <= |f| && k < i + 1 + (|f| - j)
    ensures (f[..i] + [t] + f[j..])[k] == if k < i then f[k] else if k == i then t else f[k - i - 1 + j]
  {
  }

  lemma AdoptedKids<E>(f: seq<Tree<E>>, lo: int, hi: int, i: nat, j: nat, b: U64, h: U64, e: E)
    requires Ordered(f, lo, hi) && lo <= b <= h <= hi && Adoptable(f, i, j, b, h)
    ensures Ordered(f[i..j], b, h) && ProperKids(Tree(b, h, e, f[i..j]))
  {
  }

  lemma AdoptedWellFormed<E>(f: seq<Tree<E>>, lo: int, hi: int, i: nat, j: nat, b: U64, h: U64, e: E)
    requires WellFormed(f, lo, hi) && lo <= b <= h <= hi && Adoptable(f, i, j, b, h)
    ensures WellFormed(f[..i] + [Tree(b, h, e, f[i..j])] + f[j..], lo, hi)
  {
    var t := Tree(b, h, e, f[i..j]);
    var g := f[..i] + [t] + f[j..];
    AdoptedOrdered(f, lo, hi, i, j, b, h, e);
    AdoptedKids(f, lo, hi, i, j, b, h, e);
    assert WellFormed(t.kids, b, h);
    forall k | 0 <= k < |g|
      ensures ProperKids(g[k]) && WellFormed(g[k].kids, g[k].base, g[k].high)
    {
      assert g[k] == if k < i then f[k] else if k == i then t else f[k - i - 1 + j];
    }
  }

  lemma AdoptableStorable<E>(f: seq<Tree<E>>, lo: int, hi: int, i: nat, j: nat, b: U64, h: U64)
    requires WellFormed(f, lo, hi) && lo <= b <= h <= hi && Adoptable(f, i, j, b, h)
    ensures Storable(Ranges(f), b, h)
  {
    forall r | r in Ranges(f)
      ensures Compatible(r, b, h)
    {
      var k := FindTree(f, r);
      TreeBounded(f, lo, hi, k, r);
      assert k < i || i <= k < j || j <= k;
    }
  }

  lemma CrossingNotStorable<E>(f: seq<Tree<E>>, k: nat, b: U64, h: U64)
    requires k < |f| && !Compatible(f[k].Top(), b, h)
    ensures !Storable(Ranges(f), b, h)
  {
    TreeWithin(f, k);
    assert f[k].Top() in Ranges(f);
  }

  /** The test that makes `StoreRange` give up: a child is crossed at one end. */
  predicate Crossed<E>(f: seq<Tree<E>>, b: U64, h: U64)
  {
    var ib, ih := LowerBound(f, b), LowerBound(f, h);
    (ib < |f| && b > f[ib].base) || (ih < |f| && h >= f[ih].base && h < f[ih].high)
  }

  /** The test that makes `StoreRange` pass the range on to a child. */
  predicate Contained<E>(f: seq<Tree<E>>, b: U64, h: U64)
  {
    var ib := LowerBound(f, b);
    ib == LowerBound(f, h) && ib < |f| && b >= f[ib].base
  }

  lemma CrossedNotStorable<E>(f: seq<Tree<E>>, lo: int, hi: int, b: U64, h: U64)
    requires Ordered(f, lo, hi) && b <= h && !Contained(f, b, h) && Crossed(f, b, h)
    ensures !Storable(Ranges(f), b, h)
  {
    var ib, ih := LowerBound(f, b), LowerBound(f, h);
    LowerBoundMonotone(f, b, h);
    if ib < |f| && b > f[ib].base {
      CrossingNotStorable(f, ib, b, h);
    } else {
      CrossingNotStorable(f, ih, b, h);
    }
  }

  lemma UncrossedAdoptable<E>(f: seq<Tree<E>>, lo: int, hi: int, b: U64, h: U64)
    requires Ordered(f, lo, hi) && b <= h && !Contained(f, b, h) && !Crossed(f, b, h)
    ensures Adoptable(f, LowerBound(f, b), TakenEnd(f, h), b, h)
  {
    LowerBoundMonotone(f, b, h);
    var ib, ih, j := LowerBound(f, b), LowerBound(f, h), TakenEnd(f, h);
    forall k | ib <= k < j
      ensures b <= f[k].base && f[k].high <= h && (b < f[k].base || f[k].high < h)
    {
      assert ib == k || f[ib].high < f[k].base;
      assert k < ih || k == ih;
    }
    forall k | j <= k < |f|
      ensures h < f[k].base
    {
      assert k == ih || f[ih].high < f[k].base;
    }
  }

  /** The case of `Insert` in which the new range becomes a tree of its own. */
  lemma InsertHere<E>(f: seq<Tree<E>>, lo: int, hi: int, b: U64, h: U64, e: E)
    requires Ordered(f, lo, hi) && b <= h && !Contained(f, b, h) && !Crossed(f, b, h)
    ensures Adoptable(f, LowerBound(f, b), TakenEnd(f, h), b, h)
    ensures Insert(f, b, h, e) ==
            var i, j := LowerBound(f, b), TakenEnd(f, h);
            Some(f[..i] + [Tree(b, h, e, f[i..j])] + f[j..])
  {
    UncrossedAdoptable(f, lo, hi, b, h);
  }

  /** `StoreRange` succeeds exactly on the ranges the hierarchy admits, adds
      exactly the new range, and keeps the forest well formed. */
  lemma {:induction false} InsertExact<E>(f: seq<Tree<E>>, lo: int, hi: int, b: U64, h: U64, e: E)
    requires WellFormed(f, lo, hi) && lo <= b <= h <= hi
    ensures Insert(f, b, h, e).Some? <==> Storable(Ranges(f), b, h)
    ensures Insert(f, b, h, e).Some? ==>
              var g := Insert(f, b, h, e).value;
              WellFormed(g, lo, hi) && Ranges(g) == Ranges(f) + {Range(b, h, e)}
    decreases f
  {
    var i := LowerBound(f, b);
    if i == LowerBound(f, h) && i < |f| && b >= f[i].base {
      if f[i].base == b && f[i].high == h {
        CrossingNotStorable(f, i, b, h);
      } else {
        StorableBelow(f, lo, hi, i, b, h);
        InsertExact(f[i].kids, f[i].base, f[i].high, b, h, e);
        var k := Insert(f[i].kids, b, h, e);
        if k.Some? {
          RangesOfReplaced(f, i, k.value, Range(b, h, e));
          ReplacedWellFormed(f, lo, hi, i, k.value, b, h, e);
        }
      }
    } else {
      var j := TakenEnd(f, h);
      if Crossed(f, b, h) {
        CrossedNotStorable(f, lo, hi, b, h);
      } else {
        UncrossedAdoptable(f, lo, hi, b, h);
        AdoptableStorable(f, lo, hi, i, j, b, h);
        RangesOfAdopted(f, i, j, b, h, e);
        AdoptedWellFormed(f, lo, hi, i, j, b, h, e);
      }
    }
  }

  /** `g` is the outcome of storing the `size` bytes at `b` in `f`. */
  ghost predicate StoredAs<E>(f: seq<Tree<E>>, g: seq<Tree<E>>, b: U64, size: U64, e: E, ok: bool)
  {
    var r := if 0 < size && b + size <= TWO_64 then Insert(f, b, b + size - 1, e) else None;
    ok == r.Some? && g == if ok then r.value else f
  }

  lemma StoredAsExact<E>(f: seq<Tree<E>>, g: seq<Tree<E>>, b: U64, size: U64, e: E, ok: bool)
    requires WellFormed(f, 0, TWO_64 - 1) && StoredAs(f, g, b, size, e, ok)
    ensures WellFormed(g, 0, TWO_64 - 1) && (!ok ==> g == f)
    ensures ok <==> 0 < size && b + size <= TWO_64 && Storable(Ranges(f), b, b + size - 1)
    ensures ok ==> Ranges(g) == Ranges(f) + {Range(b, b + size - 1, e)}
  {
    if 0 < size && b + size <= TWO_64 {
      var h := b + size - 1;
      var r := Insert(f, b, h, e);
      assert ok == r.Some? && g == if ok then r.value else f;
      InsertedAs(f, g, b, h, e, ok, r);
    }
  }

  lemma InsertedAs<E>(f: seq<Tree<E>>, g: seq<Tree<E>>, b: U64, h: U64, e: E, ok: bool, r: Option<seq<Tree<E>>>)
    requires WellFormed(f, 0, TWO_64 - 1) && b <= h && r == Insert(f, b, h, e)
    requires ok == r.Some? && g == if ok then r.value else f
    ensures WellFormed(g, 0, TWO_64 - 1) && (ok <==> Storable(Ranges(f), b, h))
    ensures ok ==> Ranges(g) == Ranges(f) + {Range(b, h, e)}
  {
    InsertExact(f, 0, TWO_64 - 1, b, h, e);
  }

  lemma ReplacedWellFormed<E>(f: seq<Tree<E>>, lo: int, hi: int, i: nat, kids: seq<Tree<E>>, b: U64, h: U64, e: E)
    requires WellFormed(f, lo, hi) && i < |f| && WellFormed(kids, f[i].base, f[i].high)
    requires Ranges(kids) == Ranges(f[i].kids) + {Range(b, h, e)}
    requires f[i].base < b || h < f[i].high
    ensures WellFormed(f[i := f[i].(kids := kids)], lo, hi)
  {
    var t := f[i].(kids := kids);
    forall k | 0 <= k < |kids|
      ensures t.base < kids[k].base || kids[k].high < t.high
    {
      TreeWithin(kids, k);
      var r := kids[k].Top();
      assert r in Ranges(kids);
      if r in Ranges(f[i].kids) {
        RangesProper(f[i], r);
      }
    }
    assert ProperKids(t);
  }

  // ----- Retrieving a range

  function Lookup<E>(f: seq<Tree<E>>, a: U64): Option<E>
    decreases f
  {
    var i := LowerBound(f, a);
    if i == |f| || a < f[i].base then None
    else
      match Lookup(f[i].kids, a)
      case Some(e) => Some(e)
      case None => Some(f[i].entry)
  }

  /** `r` is stored, holds `a`, and lies inside every stored range that holds `a`. */
  ghost predicate Smallest<E>(rs: set<Range<E>>, a: U64, r: Range<E>)
  {
    && r in rs && r.Contains(a)
    && forall q :: q in rs && q.Contains(a) ==> q.Encloses(r.base, r.high)
  }

  /** The only tree that can hold `a` is the one `lower_bound` finds. */
  lemma HolderIsLowerBound<E>(f: seq<Tree<E>>, lo: int, hi: int, a: U64, r: Range<E>)
    requires WellFormed(f, lo, hi) && r in Ranges(f) && r.Contains(a)
    ensures var i := LowerBound(f, a);
            i < |f| && f[i].base <= a && r in TreeRanges(f[i])
  {
    var j := FindTree(f, r);
    TreeBounded(f, lo, hi, j, r);
    assert LowerBound(f, a) <= j;
  }

  /** `RetrieveRange` answers with the smallest range that holds the address, and
      fails only when no stored range does. */
  lemma {:induction false} LookupFindsSmallest<E>(f: seq<Tree<E>>, lo: int, hi: int, a: U64)
    requires WellFormed(f, lo, hi)
    ensures Lookup(f, a).None? <==> forall r :: r in Ranges(f) ==> !r.Contains(a)
    ensures Lookup(f, a).Some? ==> exists r :: Smallest(Ranges(f), a, r) && r.entry == Lookup(f, a).value
    decreases f
  {
    var i := LowerBound(f, a);
    forall r | r in Ranges(f) && r.Contains(a)
      ensures i < |f| && f[i].base <= a && r in TreeRanges(f[i])
    {
      HolderIsLowerBound(f, lo, hi, a, r);
    }
    if i < |f| && f[i].base <= a {
      var t := f[i];
      TreeWithin(f, i);
      assert t.Top() in Ranges(f) && t.Top().Contains(a);
      LookupFindsSmallest(t.kids, t.base, t.high, a);
      if Lookup(t.kids, a).Some? {
        var r :| Smallest(Ranges(t.kids), a, r) && r.entry == Lookup(t.kids, a).value;
        RangesBounded(t.kids, t.base, t.high, r);
        assert Smallest(Ranges(f), a, r);
      } else {
        assert Smallest(Ranges(f), a, t.Top());
      }
    }
  }

  // ----- One set of ranges, one forest

  /** The ranges of the first tree are those inside its span. */
  lemma FirstTreeRanges<E>(f: seq<Tree<E>>, lo: int, hi: int, r: Range<E>)
    requires WellFormed(f, lo, hi) && f != [] && r in Ranges(f)
    ensures f[0].base <= r.base
    ensures r in TreeRanges(f[0]) <==> r.base <= f[0].high
    ensures r in Ranges(f[1..]) <==> f[0].high < r.base
  {
    var j := FindTree(f, r);
    TreeBounded(f, lo, hi, j, r);
    if r in TreeRanges(f[0]) {
      TreeBounded(f, lo, hi, 0, r);
    }
    if r in Ranges(f[1..]) {
      var k := FindTree(f[1..], r);
      TreeBounded(f, lo, hi, k + 1, r);
    }
    if j > 0 {
      TreeWithin(f[1..], j - 1);
      assert f[1..][j - 1] == f[j];
    }
  }

  lemma FirstSpanLeast<E>(f: seq<Tree<E>>, g: seq<Tree<E>>, lo: int, hi: int)
    requires WellFormed(f, lo, hi) && WellFormed(g, lo, hi) && f != [] && g != []
    requires Ranges(f) <= Ranges(g)
    ensures g[0].base <= f[0].base
    ensures g[0].base == f[0].base ==> f[0].high <= g[0].high && f[0].Top() in TreeRanges(g[0])
  {
    TreeWithin(f, 0);
    var r := f[0].Top();
    assert r in Ranges(f);
    FirstTreeRanges(g, lo, hi, r);
    if r in TreeRanges(g[0]) {
      TreeBounded(g, lo, hi, 0, r);
    }
  }

  lemma FirstTreeDetermined<E>(f: seq<Tree<E>>, g: seq<Tree<E>>, lo: int, hi: int)
    requires WellFormed(f, lo, hi) && WellFormed(g, lo, hi) && f != [] && g != []
    requires Ranges(f) == Ranges(g)
    ensures f[0].Top() == g[0].Top()
    ensures Ranges(f[0].kids) == Ranges(g[0].kids)
    ensures Ranges(f[1..]) == Ranges(g[1..])
  {
    FirstSpanLeast(f, g, lo, hi);
    FirstSpanLeast(g, f, lo, hi);
    if f[0].Top() != g[0].Top() {
      RangesProper(g[0], f[0].Top());
    }
    forall r | r in Ranges(f)
      ensures r in TreeRanges(f[0]) <==> r in TreeRanges(g[0])
      ensures r in Ranges(f[1..]) <==> r in Ranges(g[1..])
    {
      FirstTreeRanges(f, lo, hi, r);
      FirstTreeRanges(g, lo, hi, r);
    }
    KidsOfTree(f[0]);
    KidsOfTree(g[0]);
    assert Ranges(f) == TreeRanges(f[0]) + Ranges(f[1..]);
    assert Ranges(g) == TreeRanges(g[0]) + Ranges(g[1..]);
  }

  lemma KidsOfTree<E>(t: Tree<E>)
    requires ProperKids(t) && WellFormed(t.kids, t.base, t.high)
    ensures Ranges(t.kids) == TreeRanges(t) - {t.Top()}
  {
    if t.Top() in Ranges(t.kids) {
      RangesProper(t, t.Top());
    }
  }

  lemma TailWellFormed<E>(f: seq<Tree<E>>, lo: int, hi: int)
    requires WellFormed(f, lo, hi) && f != []
    ensures WellFormed(f[1..], lo, hi)
  {
  }

  lemma EmptyForest<E>(f: seq<Tree<E>>)
    ensures Ranges(f) == {} <==> f == []
  {
    if f != [] {
      assert f[0].Top() in Ranges(f);
    }
  }

  /** The tree is a function of the set of stored ranges alone. */
  lemma {:induction false} ForestCanonical<E>(f: seq<Tree<E>>, g: seq<Tree<E>>, lo: int, hi: int)
    requires WellFormed(f, lo, hi) && WellFormed(g, lo, hi) && Ranges(f) == Ranges(g)
    ensures f == g
    decreases f
  {
    EmptyForest(f);
    EmptyForest(g);
    if f != [] {
      TailWellFormed(f, lo, hi);
      TailWellFormed(g, lo, hi);
      FirstTreeDetermined(f, g, lo, hi);
      ForestCanonical(f[0].kids, g[0].kids, f[0].base, f[0].high);
      ForestCanonical(f[1..], g[1..], lo, hi);
      assert f == [f[0]] + f[1..] && g == [g[0]] + g[1..];
    }
  }

  // ----- Whole runs

  /** Storing `rs` one after another in an empty map, giving up on a failure. */
  function InsertAll<E>(rs: seq<Range<E>>): Option<seq<Tree<E>>>
    requires forall i :: 0 <= i < |rs| ==> rs[i].base <= rs[i].high
  {
    if rs == [] then Some([])
    else
      var n := |rs| - 1;
      match InsertAll(rs[..n])
      case None => None
      case Some(f) => Insert(f, rs[n].base, rs[n].high, rs[n].entry)
  }

  /** Distinct ranges, pairwise disjoint or nested. */
  ghost predicate Laminar<E>(rs: seq<Range<E>>)
  {
    forall i, j :: 0 <= i < j < |rs| ==> Compatible(rs[i], rs[j].base, rs[j].high)
  }

  lemma {:induction false} InsertAllExact<E>(rs: seq<Range<E>>)
    requires forall i :: 0 <= i < |rs| ==> rs[i].base <= rs[i].high
    ensures InsertAll(rs).Some? <==> Laminar(rs)
    ensures InsertAll(rs).Some? ==>
              && WellFormed(InsertAll(rs).value, 0, TWO_64 - 1)
              && Ranges(InsertAll(rs).value) == set r | r in rs
    decreases |rs|
  {
    if rs != [] {
      var n := |rs| - 1;
      InsertAllExact(rs[..n]);
      assert rs == rs[..n] + [rs[n]];
      if Laminar(rs[..n]) {
        var f := InsertAll(rs[..n]).value;
        InsertExact(f, 0, TWO_64 - 1, rs[n].base, rs[n].high, rs[n].entry);
        LaminarExtended(rs, n);
      }
    }
  }

  lemma LaminarExtended<E>(rs: seq<Range<E>>, n: nat)
    requires n == |rs| - 1 && Laminar(rs[..n])
    ensures Laminar(rs) <==> Storable((set r | r in rs[..n]), rs[n].base, rs[n].high)
  {
    if Storable((set r | r in rs[..n]), rs[n].base, rs[n].high) {
      forall i, j | 0 <= i < j < |rs|
        ensures Compatible(rs[i], rs[j].base, rs[j].high)
      {
        assert rs[i] == rs[..n][i];
        assert j < n ==> rs[j] == rs[..n][j];
      }
    }
  }

  /** Any order of the same laminar family succeeds in full and builds the same
      tree, hence answers every query alike. */
  lemma OrderIndependent<E>(rs: seq<Range<E>>, qs: seq<Range<E>>)
    requires forall i :: 0 <= i < |rs| ==> rs[i].base <= rs[i].high
    requires Laminar(rs) && multiset(rs) == multiset(qs)
    ensures forall i :: 0 <= i < |qs| ==> qs[i].base <= qs[i].high
    ensures InsertAll(qs).Some? && InsertAll(qs) == InsertAll(rs)
  {
    forall i | 0 <= i < |qs|
      ensures qs[i].base <= qs[i].high
    {
      assert qs[i] in multiset(qs);
      assert qs[i] in rs;
    }
    LaminarPermuted(rs, qs);
    InsertAllExact(rs);
    InsertAllExact(qs);
    forall r
      ensures r in rs <==> r in qs
    {
      assert r in multiset(rs) <==> r in multiset(qs);
    }
    assert (set r | r in rs) == (set r | r in qs);
    ForestCanonical(InsertAll(rs).value, InsertAll(qs).value, 0, TWO_64 - 1);
  }

  lemma CompatibleWithItself<E>(r: Range<E>)
    ensures !Compatible(r, r.base, r.high)
  {
  }

  lemma LaminarPermuted<E>(rs: seq<Range<E>>, qs: seq<Range<E>>)
    requires forall i :: 0 <= i < |rs| ==> rs[i].base <= rs[i].high
    requires Laminar(rs) && multiset(rs) == multiset(qs)
    ensures Laminar(qs)
  {
    forall i, j | 0 <= i < j < |qs|
      ensures Compatible(qs[i], qs[j].base, qs[j].high)
    {
      assert qs[i] in multiset(qs) && qs[j] in multiset(qs);
      var k :| 0 <= k < |rs| && rs[k] == qs[i];
      var l :| 0 <= l < |rs| && rs[l] == qs[j];
      if k == l {
        TwiceInSequence(qs, i, j);
        var m, n := TwoPositions(rs, qs[i]);
        CompatibleWithItself(qs[i]);
      }
    }
  }
}
