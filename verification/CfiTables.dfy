/** The tables that records are read into, and what looking up an address in them
    yields. Rule maps appear in the tables as texts; `text` says which.
 */
module CfiTables {
  import opened Machine
  import opened CfiRules
  import opened RangeMaps
  import opened CfiRecords

  /** What is asked of every rule map of an entry. */
  type MapTest = RuleMap -> bool

  ghost predicate SafeEntry(safe: MapTest, e: StackFrameEntry)
  {
    safe(e.initial) && forall c :: c in e.changes ==> safe(e.changes[c])
  }

  /** Parsing the text of a safe map overrides the rules that the map gives. */
  ghost predicate Faithful(parse: Parser, text: RuleMap -> string, safe: MapTest)
  {
    forall m, info, name {:trigger Overrides(parse(text(m), info), m, info, name)} ::
      safe(m) ==> Overrides(parse(text(m), info), m, info, name)
  }

  ghost predicate Overrides(r: (bool, FrameInfo), m: RuleMap, info: FrameInfo, name: string)
  {
    r.0 && r.1.Rule(name) == if name in m then Some(m[name]) else info.Rule(name)
  }

  // ----- Filling the tables

  /** Changes as they are filed: as text. */
  ghost function Filed(text: RuleMap -> string, changes: map<U64, RuleMap>): map<U64, string>
  {
    map x | x in changes :: text(changes[x])
  }

  /** An entry without initial rules has its changes filed, but no range stored. */
  ghost function AddEntry(text: RuleMap -> string, t: Tables, e: StackFrameEntry): Tables
  {
    Tables(if e.initial == map[] then t.initial else StoreRange(t.initial, e.address, e.size, text(e.initial)).1,
           t.deltas + Filed(text, e.changes))
  }

  ghost function Build(text: RuleMap -> string, es: seq<StackFrameEntry>): Tables
  {
    if es == [] then NO_TABLES
    else AddEntry(text, Build(text, es[..|es| - 1]), es[|es| - 1])
  }

  // ----- Looking up

  predicate Within(e: StackFrameEntry, c: int)
  {
    e.address <= c < e.address + e.size
  }

  /** An entry that is not empty, with its changes inside. */
  ghost predicate PlacedEntry(e: StackFrameEntry)
  {
    && 0 < e.size && e.address + e.size <= TWO_64
    && forall c :: c in e.changes ==> Within(e, c)
  }

  predicate Clear(e: StackFrameEntry, f: StackFrameEntry)
  {
    e.address + e.size <= f.address || f.address + f.size <= e.address
  }

  /** Entries as the symbol dumper meets them: well placed and pairwise disjoint. */
  ghost predicate Placed(es: seq<StackFrameEntry>)
  {
    && (forall i :: 0 <= i < |es| ==> PlacedEntry(es[i]))
    && (forall i, j :: 0 <= i < j < |es| ==> Clear(es[i], es[j]))
  }

  lemma PlacedPrefix(es: seq<StackFrameEntry>, n: nat)
    requires Placed(es) && n <= |es|
    ensures Placed(es[..n]) && forall i :: 0 <= i < n ==> es[..n][i] == es[i]
  {
  }

  ghost function ItemOf(text: RuleMap -> string, e: StackFrameEntry): Item<string>
    requires PlacedEntry(e)
  {
    Item(e.address, e.address + e.size - 1, text(e.initial))
  }

  /** The items stored are exactly those of the entries with initial rules. */
  ghost predicate Stores(text: RuleMap -> string, es: seq<StackFrameEntry>, m: RangeMap<string>)
    requires Placed(es)
  {
    && (forall i :: 0 <= i < |es| && es[i].initial != map[] ==> ItemOf(text, es[i]) in m)
    && (forall it :: it in m ==> exists i :: 0 <= i < |es| && es[i].initial != map[] && it == ItemOf(text, es[i]))
  }

  lemma StoresApart(text: RuleMap -> string, es: seq<StackFrameEntry>, m: RangeMap<string>, n: nat)
    requires Placed(es) && n == |es| - 1 && Placed(es[..n]) && Stores(text, es[..n], m)
    ensures Apart(m, es[n].address, es[n].address + es[n].size - 1)
  {
    forall k | 0 <= k < |m|
      ensures m[k].high < es[n].address || es[n].address + es[n].size - 1 < m[k].base
    {
      assert m[k] in m;
      var i :| 0 <= i < n && es[..n][i].initial != map[] && m[k] == ItemOf(text, es[..n][i]);
      assert es[..n][i] == es[i] && Clear(es[i], es[n]);
    }
  }

  lemma StoresSnoc(text: RuleMap -> string, es: seq<StackFrameEntry>, n: nat, m: RangeMap<string>, r: RangeMap<string>)
    requires Placed(es) && n == |es| - 1 && Placed(es[..n]) && Stores(text, es[..n], m)
    requires if es[n].initial == map[] then r == m else Adds(m, r, ItemOf(text, es[n]))
    ensures Stores(text, es, r)
  {
    forall i | 0 <= i < |es| && es[i].initial != map[]
      ensures ItemOf(text, es[i]) in r
    {
      assert i < n ==> es[..n][i] == es[i] && ItemOf(text, es[..n][i]) in m;
    }
    forall it | it in r
      ensures exists i :: 0 <= i < |es| && es[i].initial != map[] && it == ItemOf(text, es[i])
    {
      if it in m {
        var i :| 0 <= i < n && es[..n][i].initial != map[] && it == ItemOf(text, es[..n][i]);
        assert es[i] == es[..n][i] && it == ItemOf(text, es[i]);
      } else {
        assert it == ItemOf(text, es[n]);
      }
    }
  }

  lemma {:induction false} BuildItems(text: RuleMap -> string, es: seq<StackFrameEntry>)
    requires Placed(es)
    ensures Ordered(Build(text, es).initial) && Stores(text, es, Build(text, es).initial)
    decreases |es|
  {
    if es != [] {
      var n := |es| - 1;
      var e, m := es[n], Build(text, es[..n]).initial;
      PlacedPrefix(es, n);
      BuildItems(text, es[..n]);
      StoresApart(text, es, m, n);
      StoreApart(m, e.address, e.size, text(e.initial));
      var r := if e.initial == map[] then m else StoreRange(m, e.address, e.size, text(e.initial)).1;
      assert Build(text, es).initial == r;
      StoresSnoc(text, es, n, m, r);
    }
  }

  /** An address within entry `k` is filed exactly when entry `k` changes there. */
  lemma {:induction false} BuildDeltas(text: RuleMap -> string, es: seq<StackFrameEntry>, x: U64, k: nat)
    requires Placed(es) && k < |es| && Within(es[k], x)
    ensures x in Build(text, es).deltas <==> x in es[k].changes
    ensures x in es[k].changes ==> Build(text, es).deltas[x] == text(es[k].changes[x])
    decreases |es|
  {
    var n := |es| - 1;
    PlacedPrefix(es, n);
    if k == n {
      forall i | 0 <= i < n
        ensures !Within(es[..n][i], x)
      {
        assert Clear(es[i], es[n]);
      }
      NotFiled(text, es[..n], x);
    } else {
      assert Clear(es[k], es[n]);
      BuildDeltas(text, es[..n], x, k);
    }
  }

  lemma {:induction false} NotFiled(text: RuleMap -> string, es: seq<StackFrameEntry>, x: U64)
    requires Placed(es) && forall i :: 0 <= i < |es| ==> !Within(es[i], x)
    ensures x !in Build(text, es).deltas
    decreases |es|
  {
    if es != [] {
      var n := |es| - 1;
      PlacedPrefix(es, n);
      NotFiled(text, es[..n], x);
    }
  }

  /** The rule an entry puts in force for `name` at address `c`. */
  ghost function RuleAt(e: StackFrameEntry, name: string, c: int): Option<string>
    decreases c - e.address
  {
    if c < e.address then (if name in e.initial then Some(e.initial[name]) else None)
    else if c in e.changes && name in e.changes[c] then Some(e.changes[c][name])
    else RuleAt(e, name, c - 1)
  }

  /** Over the extent of `e`, exactly the changes of `e` are filed. */
  ghost predicate Files(deltas: map<U64, string>, text: RuleMap -> string, e: StackFrameEntry)
  {
    forall x: U64 {:trigger x in deltas} :: Within(e, x) ==>
      && (x in deltas <==> x in e.changes)
      && (x in e.changes ==> deltas[x] == text(e.changes[x]))
  }

  lemma {:induction false} DeltasApply(
      parse: Parser, text: RuleMap -> string, safe: MapTest, deltas: map<U64, string>, e: StackFrameEntry,
      a: int, info: FrameInfo, name: string)
    requires Faithful(parse, text, safe) && PlacedEntry(e) && SafeEntry(safe, e) && Files(deltas, text, e)
    requires e.address - 1 <= a && a < e.address + e.size
    requires info.Rule(name) == RuleAt(e, name, e.address - 1)
    ensures ApplyDeltas(parse, deltas, e.address, a, info).Rule(name) == RuleAt(e, name, a)
    decreases a + 1 - e.address
  {
    var lo := e.address;
    if lo <= a {
      DeltasApply(parse, text, safe, deltas, e, a - 1, info, name);
      var before := ApplyDeltas(parse, deltas, lo, a - 1, info);
      if a in deltas {
        var m := e.changes[a];
        assert Overrides(parse(text(m), before), m, before, name);
      }
    }
  }

  lemma BuildFiles(text: RuleMap -> string, es: seq<StackFrameEntry>, k: nat)
    requires Placed(es) && k < |es|
    ensures Files(Build(text, es).deltas, text, es[k])
  {
    var deltas := Build(text, es).deltas;
    forall x: U64 | Within(es[k], x)
      ensures x in deltas <==> x in es[k].changes
      ensures x in es[k].changes ==> deltas[x] == text(es[k].changes[x])
    {
      BuildDeltas(text, es, x, k);
    }
  }

  /** A frame info is found at `a`, and it has this rule for `name`. */
  ghost predicate Finds(parse: Parser, t: Tables, a: U64, name: string, rule: Option<string>)
  {
    var r := Find(parse, t, a);
    r.Some? && r.value.Rule(name) == rule
  }

  /** At an address inside an entry, the rules the entry puts in force are found. */
  lemma FindInEntry(
      parse: Parser, text: RuleMap -> string, safe: MapTest, es: seq<StackFrameEntry>, a: U64, k: nat, name: string,
      rule: Option<string>)
    requires Faithful(parse, text, safe) && Placed(es)
    requires k < |es| && Within(es[k], a) && es[k].initial != map[] && SafeEntry(safe, es[k]) && RuleAt(es[k], name, a) == rule
    ensures Finds(parse, Build(text, es), a, name, rule)
  {
    var t, e := Build(text, es), es[k];
    BuildItems(text, es);
    assert ItemOf(text, e) in t.initial;
    BuildFiles(text, es, k);
    FindInTables(parse, text, safe, t, e, a, name);
  }

  lemma FindInTables(
      parse: Parser, text: RuleMap -> string, safe: MapTest, t: Tables, e: StackFrameEntry, a: U64, name: string)
    requires Faithful(parse, text, safe) && PlacedEntry(e) && SafeEntry(safe, e) && Within(e, a)
    requires Ordered(t.initial) && ItemOf(text, e) in t.initial && Files(t.deltas, text, e)
    ensures Finds(parse, t, a, name, RuleAt(e, name, a))
  {
    var it := ItemOf(text, e);
    RetrieveRangeExact(t.initial, a, it);
    var (ok, info) := parse(it.value, EMPTY);
    assert Overrides(parse(text(e.initial), EMPTY), e.initial, EMPTY, name);
    assert info.Rule(name) == RuleAt(e, name, e.address - 1);
    DeltasApply(parse, text, safe, t.deltas, e, a, info, name);
  }

  /** Whether anything is found inside an entry depends on its initial rules alone. */
  lemma FoundInEntry(parse: Parser, text: RuleMap -> string, es: seq<StackFrameEntry>, a: U64, k: nat)
    requires Placed(es) && k < |es| && Within(es[k], a)
    ensures Find(parse, Build(text, es), a).Some? <==> es[k].initial != map[] && parse(text(es[k].initial), EMPTY).0
  {
    if es[k].initial == map[] {
      forall i | 0 <= i < |es|
        ensures !Within(es[i], a) || es[i].initial == map[]
      {
        assert i < k ==> Clear(es[i], es[k]);
        assert k < i ==> Clear(es[k], es[i]);
      }
      FindOutside(parse, text, es, a);
    } else {
      BuildItems(text, es);
      RetrieveRangeExact(Build(text, es).initial, a, ItemOf(text, es[k]));
    }
  }

  /** Outside all entries with initial rules nothing is found. */
  lemma FindOutside(parse: Parser, text: RuleMap -> string, es: seq<StackFrameEntry>, a: U64)
    requires Placed(es) && forall i :: 0 <= i < |es| ==> !Within(es[i], a) || es[i].initial == map[]
    ensures Find(parse, Build(text, es), a).None?
  {
    var t := Build(text, es);
    BuildItems(text, es);
    forall it | it in t.initial
      ensures !it.Holds(a)
    {
      var i :| 0 <= i < |es| && es[i].initial != map[] && it == ItemOf(text, es[i]);
    }
    var r := RetrieveRange(t.initial, a);
    assert r.Some? ==> r.value in t.initial && r.value.Holds(a);
  }
}
