/** The contained range map as the program builds it: objects that own their
    children through a map keyed by each child's high address.
 */
module ContainedRangeMaps {
  import opened Machine
  import opened RangeForest

  // ----- The map of children

  /** The entries of a `std::map`, in key order. */
  type Children<E> = seq<(U64, ContainedRangeMap<E>)>

  /** `lower_bound` of a map. */
  function LowerBoundKey<E>(m: Children<E>, k: U64): (i: nat)
    ensures i <= |m|
    ensures forall j :: 0 <= j < i ==> m[j].0 < k
    ensures i < |m| ==> k <= m[i].0
  {
    if m == [] || k <= m[0].0 then 0 else 1 + LowerBoundKey(m[1..], k)
  }

  /** `insert` of a map: a key that is already there wins. */
  function InsertKey<E>(m: Children<E>, k: U64, c: ContainedRangeMap<E>): Children<E>
  {
    var i := LowerBoundKey(m, k);
    if i < |m| && m[i].0 == k then m else m[..i] + [(k, c)] + m[i..]
  }

  lemma {:induction false} KeyPosition<E>(m: Children<E>, i: nat, k: U64)
    requires i <= |m|
    requires forall j :: 0 <= j < i ==> m[j].0 < k
    requires forall j :: i <= j < |m| ==> k < m[j].0
    ensures LowerBoundKey(m, k) == i
  {
    if i > 0 {
      KeyPosition(m[1..], i - 1, k);
    }
  }

  /** Erasing the entries in [i, j) and inserting a key between the rest. */
  lemma KeySpliced<E>(m: Children<E>, i: nat, j: nat, k: U64, c: ContainedRangeMap<E>)
    requires i <= j <= |m|
    requires forall l :: 0 <= l < i ==> m[l].0 < k
    requires forall l :: j <= l < |m| ==> k < m[l].0
    ensures InsertKey(m[..i] + m[j..], k, c) == m[..i] + [(k, c)] + m[j..]
  {
    KeyPosition(m[..i] + m[j..], i, k);
    assert (m[..i] + m[j..])[..i] == m[..i] && (m[..i] + m[j..])[i..] == m[j..];
  }

  lemma {:induction false} SameLowerBound<E>(m: Children<E>, f: seq<Tree<E>>, k: U64)
    requires |m| == |f| && forall j :: 0 <= j < |m| ==> m[j].0 == f[j].high
    ensures LowerBoundKey(m, k) == LowerBound(f, k)
  {
    if m != [] {
      SameLowerBound(m[1..], f[1..], k);
    }
  }

  // ----- Ownership

  /** `all` holds the owner and the pairwise disjoint `parts` it owns. */
  ghost predicate Owns(owner: object, all: set<object>, parts: seq<set<object>>)
  {
    && owner in all
    && (forall i :: 0 <= i < |parts| ==> parts[i] <= all && owner !in parts[i])
    && (forall i, j :: 0 <= i < j < |parts| ==> parts[i] !! parts[j])
  }

  ghost function Union(parts: seq<set<object>>): (u: set<object>)
    ensures forall i :: 0 <= i < |parts| ==> parts[i] <= u
    ensures forall o :: o in u ==> exists i :: 0 <= i < |parts| && o in parts[i]
  {
    if parts == [] then {} else parts[0] + Union(parts[1..])
  }

  /** One part grows by objects nobody owned. */
  lemma OwnsGrown(owner: object, all: set<object>, parts: seq<set<object>>, i: nat, part: set<object>)
    requires Owns(owner, all, parts) && i < |parts|
    requires (part - parts[i]) !! all
    ensures Owns(owner, all + part, parts[i := part])
  {
  }

  /** A part replaces those in [i, j). */
  lemma OwnsSpliced(owner: object, all: set<object>, parts: seq<set<object>>, i: nat, j: nat, part: set<object>)
    requires Owns(owner, all, parts) && i <= j <= |parts| && owner !in part
    requires forall k :: 0 <= k < |parts| && !(i <= k < j) ==> parts[k] !! part
    ensures Owns(owner, all + part, parts[..i] + [part] + parts[j..])
  {
    var ps := parts[..i] + [part] + parts[j..];
    assert forall k :: 0 <= k < |ps| ==>
      ps[k] == if k < i then parts[k] else if k == i then part else parts[k - i - 1 + j];
  }

  lemma UnionApart(parts: seq<set<object>>, i: nat, j: nat, s: set<object>)
    requires i <= j <= |parts| && forall k :: i <= k < j ==> parts[k] !! s
    ensures Union(parts[i..j]) !! s
  {
    forall x | x in Union(parts[i..j])
      ensures x !in s
    {
      var k :| 0 <= k < j - i && x in parts[i..j][k];
      assert x in parts[i + k];
    }
  }

  /** The parts in [i, j) move under a new object `o`. */
  lemma OwnsAdopted(owner: object, all: set<object>, parts: seq<set<object>>, i: nat, j: nat, o: object)
    requires Owns(owner, all, parts) && i <= j <= |parts| && o !in all
    ensures Owns(owner, all + {o}, parts[..i] + [{o} + Union(parts[i..j])] + parts[j..])
  {
    var u := Union(parts[i..j]);
    UnionApart(parts, i, j, {owner});
    UnionWithin(parts, i, j, all);
    forall k | 0 <= k < |parts| && !(i <= k < j)
      ensures parts[k] !! {o} + u
    {
      UnionApart(parts, i, j, parts[k]);
    }
    OwnsSpliced(owner, all, parts, i, j, {o} + u);
    assert all + ({o} + u) == all + {o};
  }

  lemma SliceAt<T>(s: seq<T>, i: nat, j: nat, k: nat)
    requires i <= j <= |s| && k < j - i
    ensures s[i..j][k] == s[i + k]
  {
  }

  /** A new object can own the parts in [i, j). */
  lemma OwnsSlice(owner: object, all: set<object>, parts: seq<set<object>>, i: nat, j: nat, o: object)
    requires Owns(owner, all, parts) && i <= j <= |parts| && o !in all
    ensures Owns(o, {o} + Union(parts[i..j]), parts[i..j])
  {
    var ps := parts[i..j];
    forall k | 0 <= k < |ps|
      ensures ps[k] <= Union(ps) && o !in ps[k]
    {
      SliceAt(parts, i, j, k);
    }
    forall k, l | 0 <= k < l < |ps|
      ensures ps[k] !! ps[l]
    {
      SliceAt(parts, i, j, k);
      SliceAt(parts, i, j, l);
    }
  }

  lemma UnionWithin(parts: seq<set<object>>, i: nat, j: nat, s: set<object>)
    requires i <= j <= |parts| && forall k :: i <= k < j ==> parts[k] <= s
    ensures Union(parts[i..j]) <= s
  {
    forall x | x in Union(parts[i..j])
      ensures x in s
    {
      var k :| 0 <= k < j - i && x in parts[i..j][k];
      assert x in parts[i + k];
    }
  }

  /** An object of one of the first `k` parts. */
  ghost predicate InParts(parts: seq<set<object>>, k: nat, o: object)
  {
    exists j :: 0 <= j < k <= |parts| && o in parts[j]
  }

  ghost predicate NoRepeats(s: seq<object>)
  {
    forall i, j :: 0 <= i < j < |s| ==> s[i] != s[j]
  }

  class ContainedRangeMap<E> {
    const base: U64
    const entry: E
    var map_: Children<E>

    ghost var Repr: set<object>
    ghost var Parts: seq<set<object>>
    ghost var Forest: seq<Tree<E>>

    /** Every object below this one has exactly one owner, and `Forest` is the
        tree the objects form. */
    ghost predicate Valid()
      reads this, Repr
      ensures Valid() ==> this in Repr
      decreases Repr
    {
      && Owns(this, Repr, Parts)
      && |map_| == |Parts| == |Forest|
      && forall i :: 0 <= i < |map_| ==> map_[i].1 in Parts[i] && IsChild(i, map_[i].1, map_[i].0)
    }

    ghost predicate IsChild(i: nat, c: ContainedRangeMap<E>, high: U64)
      requires Owns(this, Repr, Parts) && i < |Parts| == |Forest| && c in Parts[i]
      reads this, Repr
      decreases Repr, 0
    {
      && c.Repr == Parts[i]
      && Forest[i] == Tree(c.base, high, c.entry, c.Forest)
      && assert c.Repr <= Repr - {this}; c.Valid()
    }

    /** The root: no geometry, no entry that matters, no children. */
    constructor Root(e: E)
      ensures Valid() && fresh(Repr) && Forest == []
    {
      base, entry, map_ := 0, e, [];
      Repr, Parts, Forest := {this}, [], [];
    }

    /** A new node with the child map `m`. */
    constructor Node(b: U64, e: E, m: Children<E>, ghost ps: seq<set<object>>, ghost f: seq<Tree<E>>)
      ensures base == b && entry == e && map_ == m
      ensures Parts == ps && Forest == f && Repr == {this} + Union(ps)
    {
      base, entry, map_ := b, e, m;
      Parts, Forest := ps, f;
      Repr := {this} + Union(ps);
    }

    /** `StoreRange` at the root, in terms of the flat set of stored ranges: it
        succeeds exactly on a non-empty range that does not overflow, equals no
        stored range and crosses none; it then adds that range and nothing else. */
    method Store(b: U64, size: U64, e: E) returns (ok: bool)
      requires Valid() && WellFormed(Forest, 0, TWO_64 - 1)
      modifies Repr
      ensures Valid() && fresh(Repr - old(Repr)) && WellFormed(Forest, 0, TWO_64 - 1)
      ensures ok <==> 0 < size && b + size <= TWO_64 && Storable(Ranges(old(Forest)), b, b + size - 1)
      ensures ok ==> Ranges(Forest) == Ranges(old(Forest)) + {Range(b, b + size - 1, e)}
      ensures !ok ==> Forest == old(Forest)
    {
      ok := StoreRange(b, size, e, 0, TWO_64 - 1);
      StoredAsExact(old(Forest), Forest, b, size, e, ok);
    }

    /** `StoreRange`. The bounds `lo` and `hi` are those of this node. */
    method StoreRange(b: U64, size: U64, e: E, ghost lo: int, ghost hi: int) returns (ok: bool)
      requires Valid() && WellFormed(Forest, lo, hi)
      requires 0 < size && b + size <= TWO_64 ==> lo <= b && b + size - 1 <= hi
      modifies Repr
      ensures Valid() && fresh(Repr - old(Repr))
      ensures StoredAs(old(Forest), Forest, b, size, e, ok)
      decreases Repr, 2
    {
      var high := Sub64(Add64(b, size), 1);
      if size <= 0 || high < b {
        return false;
      }
      assert high == b + size - 1;
      ok := StoreChecked(b, size, high, e, lo, hi);
    }

    /** `StoreRange`, past the check for undersize or overflow. */
    method StoreChecked(b: U64, size: U64, high: U64, e: E, ghost lo: int, ghost hi: int) returns (ok: bool)
      requires Valid() && WellFormed(Forest, lo, hi) && lo <= b <= high <= hi && high == b + size - 1
      modifies Repr
      ensures Valid() && fresh(Repr - old(Repr))
      ensures ok <==> Insert(old(Forest), b, high, e).Some?
      ensures Forest == if ok then Insert(old(Forest), b, high, e).value else old(Forest)
      decreases Repr, 1
    {
      var ib := LowerBoundKey(map_, b);
      var ih := LowerBoundKey(map_, high);
      SameLowerBound(map_, Forest, b);
      SameLowerBound(map_, Forest, high);
      if ib == ih && ib < |map_| && b >= map_[ib].1.base {
        InsertInChild(Forest, b, high, e, ib);
        if map_[ib].1.base == b && map_[ib].0 == high {
          return false;
        }
        ok := StoreInChild(ib, b, size, high, e);
      } else {
        ok := StoreHere(ib, ih, b, high, e, lo, hi);
      }
    }

    /** The new range lies within child `i`: pass it on. */
    method StoreInChild(i: nat, b: U64, size: U64, high: U64, e: E) returns (ok: bool)
      requires Valid() && i < |map_| && b <= high == b + size - 1
      requires WellFormed(Forest[i].kids, Forest[i].base, Forest[i].high)
      requires Forest[i].base <= b && high <= Forest[i].high
      modifies Repr
      ensures Valid() && fresh(Repr - old(Repr))
      ensures ok <==> Insert(old(Forest)[i].kids, b, high, e).Some?
      ensures Forest ==
              if ok then old(Forest)[i := old(Forest)[i].(kids := Insert(old(Forest)[i].kids, b, high, e).value)]
              else old(Forest)
      decreases Repr, 0
    {
      var c := map_[i].1;
      assert IsChild(i, c, map_[i].0);
      ok := c.StoreRange(b, size, e, Forest[i].base, Forest[i].high);
      OwnsGrown(this, Repr, Parts, i, c.Repr);
      ChildrenKept(i);
      Reattach(i);
    }

    /** The other children are untouched by a store into child `i`. */
    twostate lemma ChildrenKept(i: nat)
      requires old(Valid()) && i < |map_| && unchanged(this)
      requires forall o :: o in Repr && o !in old(map_[i].1.Repr) ==> unchanged(o)
      ensures forall j :: 0 <= j < |map_| && j != i ==> IsChild(j, map_[j].1, map_[j].0)
    {
      forall j | 0 <= j < |map_| && j != i
        ensures IsChild(j, map_[j].1, map_[j].0)
      {
        assert old(IsChild(j, map_[j].1, map_[j].0));
        assert old(IsChild(i, map_[i].1, map_[i].0));
        assert Parts[j] !! Parts[i];
      }
    }

    /** Child `i` has grown: bring this node's own account up to date. */
    ghost method Reattach(i: nat)
      requires |map_| == |Parts| == |Forest| && i < |map_|
      requires map_[i].1.Valid() && map_[i].1 in Repr
      requires Owns(this, Repr, Parts) && Owns(this, Repr + map_[i].1.Repr, Parts[i := map_[i].1.Repr])
      requires forall j :: 0 <= j < |map_| && j != i ==>
                 map_[j].1 in Parts[j] && IsChild(j, map_[j].1, map_[j].0)
      modifies this`Repr, this`Parts, this`Forest
      ensures Valid() && Repr == old(Repr) + map_[i].1.Repr
      ensures Forest == old(Forest)[i := Tree(map_[i].1.base, map_[i].0, map_[i].1.entry, map_[i].1.Forest)]
    {
      var c := map_[i].1;
      Repr := Repr + c.Repr;
      Parts := Parts[i := c.Repr];
      Forest := Forest[i := Tree(c.base, map_[i].0, c.entry, c.Forest)];
    }

    /** No child contains the new range: it becomes a child of this node. */
    method StoreHere(ib: nat, ih: nat, b: U64, high: U64, e: E, ghost lo: int, ghost hi: int) returns (ok: bool)
      requires Valid() && Ordered(Forest, lo, hi) && b <= high
      requires ib == LowerBound(Forest, b) && ih == LowerBound(Forest, high) && !Contained(Forest, b, high)
      modifies this
      ensures Valid() && fresh(Repr - old(Repr))
      ensures ok <==> Insert(old(Forest), b, high, e).Some?
      ensures Forest == if ok then Insert(old(Forest), b, high, e).value else old(Forest)
    {
      assert forall k :: 0 <= k < |map_| ==> IsChild(k, map_[k].1, map_[k].0);
      var containsHigh := ih < |map_| && high >= map_[ih].1.base;
      if (ib < |map_| && b > map_[ib].1.base) || (containsHigh && high < map_[ih].0) {
        return false;
      }
      InsertHere(Forest, lo, hi, b, high, e);
      Adopt(ib, if containsHigh then ih + 1 else ih, b, high, e);
      return true;
    }

    /** Moves the children in [i, j) below a new child. */
    method Adopt(i: nat, j: nat, b: U64, high: U64, e: E)
      requires Valid() && b <= high && Adoptable(Forest, i, j, b, high)
      requires forall k :: 0 <= k < |Forest| ==> Forest[k].base <= Forest[k].high
      modifies this
      ensures Valid() && fresh(Repr - old(Repr))
      ensures Forest == old(Forest[..i] + [Tree(b, high, e, Forest[i..j])] + Forest[j..])
    {
      var child := NewParent(i, j, b, e);
      OwnsAdopted(this, Repr, Parts, i, j, child);
      UnionApart(Parts, i, j, {this});
      Attach(i, j, high, child);
    }

    /** A new node over the children in [i, j), which this node still holds. */
    method NewParent(i: nat, j: nat, b: U64, e: E) returns (child: ContainedRangeMap<E>)
      requires Valid() && i <= j <= |map_|
      ensures fresh(child) && child.Valid()
      ensures child.base == b && child.entry == e && child.Forest == Forest[i..j]
      ensures child.Repr == {child} + Union(Parts[i..j])
    {
      ghost var parts, forest := Parts[i..j], Forest[i..j];
      var m := map_[i..j];
      child := new ContainedRangeMap.Node(b, e, m, parts, forest);
      OwnsSlice(this, Repr, Parts, i, j, child);
      forall k | 0 <= k < j - i
        ensures m[k].1 in parts[k] && child.IsChild(k, m[k].1, m[k].0)
      {
        ghost var l := i + k;
        SliceAt(map_, i, j, k);
        SliceAt(Parts, i, j, k);
        SliceAt(Forest, i, j, k);
        assert map_[l].1 in Parts[l];
        assert IsChild(l, map_[l].1, map_[l].0);
      }
    }

    /** Replaces the children in [i, j) by `child`, filed under `high`. */
    method Attach(i: nat, j: nat, high: U64, child: ContainedRangeMap<E>)
      requires Valid() && i <= j <= |map_|
      requires forall k :: 0 <= k < i ==> Forest[k].high < high
      requires forall k :: j <= k < |map_| ==> high < Forest[k].high
      requires child.Valid() && this !in child.Repr
      requires Owns(this, Repr + {child}, Parts[..i] + [child.Repr] + Parts[j..])
      modifies this
      ensures Valid() && Repr == old(Repr) + {child}
      ensures Forest == old(Forest[..i]) + [Tree(child.base, high, child.entry, child.Forest)] + old(Forest[j..])
    {
      KeySpliced(map_, i, j, high, child);
      ghost var m := map_;
      map_ := InsertKey(map_[..i] + map_[j..], high, child);
      Account(m, i, j, high, child);
    }

    /** The children `m` have given way to `child` in [i, j): bring this node's own
        account up to date. */
    ghost method Account(m: Children<E>, i: nat, j: nat, high: U64, child: ContainedRangeMap<E>)
      requires i <= j <= |m| == |Parts| == |Forest|
      requires map_ == m[..i] + [(high, child)] + m[j..]
      requires Owns(this, Repr, Parts) && child.Valid() && this !in child.Repr
      requires Owns(this, Repr + {child}, Parts[..i] + [child.Repr] + Parts[j..])
      requires forall k :: 0 <= k < |m| ==> m[k].1 in Parts[k] && IsChild(k, m[k].1, m[k].0)
      modifies this`Repr, this`Parts, this`Forest
      ensures Valid() && Repr == old(Repr) + {child}
      ensures Forest == old(Forest)[..i] + [Tree(child.base, high, child.entry, child.Forest)] + old(Forest)[j..]
    {
      Parts := Parts[..i] + [child.Repr] + Parts[j..];
      Forest := Forest[..i] + [Tree(child.base, high, child.entry, child.Forest)] + Forest[j..];
      Repr := Repr + {child};
      forall k | 0 <= k < |map_|
        ensures map_[k].1 in Parts[k] && IsChild(k, map_[k].1, map_[k].0)
      {
        SplicedAt(m, i, j, (high, child), k);
        SplicedAt(old(Parts), i, j, child.Repr, k);
        SplicedAt(old(Forest), i, j, Tree(child.base, high, child.entry, child.Forest), k);
      }
    }

    /** `RetrieveRange`. */
    method RetrieveRange(a: U64) returns (r: Option<E>)
      requires Valid()
      ensures r == Lookup(Forest, a)
      decreases Repr
    {
      var i := LowerBoundKey(map_, a);
      SameLowerBound(map_, Forest, a);
      if i == |map_| || a < map_[i].1.base {
        return None;
      }
      r := map_[i].1.RetrieveRange(a);
      if r.None? {
        r := Some(map_[i].1.entry);
      }
    }

    /** `RetrieveRange` at the root, in terms of the flat set of stored ranges. */
    method Retrieve(a: U64) returns (r: Option<E>)
      requires Valid() && WellFormed(Forest, 0, TWO_64 - 1)
      ensures r.None? <==> forall q :: q in Ranges(Forest) ==> !q.Contains(a)
      ensures r.Some? ==> exists q :: Smallest(Ranges(Forest), a, q) && q.entry == r.value
    {
      LookupFindsSmallest(Forest, 0, TWO_64 - 1, a);
      r := RetrieveRange(a);
    }

    /** Child `j` is as it was if its objects are. */
    twostate lemma ChildKept(j: nat)
      requires old(Owns(this, Repr, Parts)) && unchanged(this) && j < |map_| == |Parts| == |Forest|
      requires map_[j].1 in Parts[j] && old(IsChild(j, map_[j].1, map_[j].0))
      requires forall o :: o in Parts[j] ==> unchanged(o)
      ensures IsChild(j, map_[j].1, map_[j].0)
    {
    }

    /** `Clear`, with the objects it deletes: as many as the tree has nodes, each once,
        and all of them below this one. */
    method Clear() returns (ghost deleted: seq<object>)
      requires Valid()
      modifies Repr
      ensures Valid() && Repr == {this} && Forest == []
      ensures |deleted| == Nodes(old(Forest)) && NoRepeats(deleted) && forall o :: o in deleted ==> o in old(Repr) && o != this
      decreases Repr
    {
      deleted := [];
      assert Forest[..0] == [];
      for k := 0 to |map_|
        invariant unchanged(this)
        invariant forall j :: k <= j < |map_| ==> map_[j].1 in Parts[j] && IsChild(j, map_[j].1, map_[j].0)
        invariant |deleted| == Nodes(Forest[..k]) && NoRepeats(deleted)
        invariant forall o :: o in deleted ==> InParts(Parts, k, o)
      {
        deleted := ClearChild(k, deleted);
      }
      assert Forest[..|Forest|] == Forest;
      map_ := [];
      Repr, Parts, Forest := {this}, [], [];
    }

    /** Clears and deletes child `k`, after those before it. */
    method ClearChild(k: nat, ghost before: seq<object>) returns (ghost deleted: seq<object>)
      requires Owns(this, Repr, Parts) && k < |map_| == |Parts| == |Forest|
      requires forall j :: k <= j < |map_| ==> map_[j].1 in Parts[j] && IsChild(j, map_[j].1, map_[j].0)
      requires |before| == Nodes(Forest[..k]) && NoRepeats(before) && forall o :: o in before ==> InParts(Parts, k, o)
      modifies Parts[k]
      ensures unchanged(this)
      ensures forall j :: k < j < |map_| ==> map_[j].1 in Parts[j] && IsChild(j, map_[j].1, map_[j].0)
      ensures |deleted| == Nodes(Forest[..k + 1]) && NoRepeats(deleted) && forall o :: o in deleted ==> InParts(Parts, k + 1, o)
      decreases Repr, 0
    {
      var child := map_[k].1;
      ghost var forest := child.Forest;
      ghost var below := child.Clear();
      forall j | k < j < |map_|
        ensures IsChild(j, map_[j].1, map_[j].0)
      {
        assert Parts[k] !! Parts[j];
        ChildKept(j);
      }
      deleted := before + (below + [child]);
      assert Forest[..k + 1][..k] == Forest[..k];
      forall o | o in below + [child]
        ensures o in Parts[k] && o !in before
      {
        assert forall j :: 0 <= j < k ==> Parts[j] !! Parts[k];
      }
    }
  }
}
