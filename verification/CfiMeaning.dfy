/** What the tables mean: the rules found at an address are those the entries
    written to the file put in force there.
 */
module CfiMeaning {
  import opened Machine
  import opened Texts
  import opened CfiRules
  import opened RangeMaps
  import opened CfiRecords
  import opened CfiTables

  // ----- One rule map

  /** At least one rule, and every name and rule survives printing. */
  predicate SafeMap(m: RuleMap)
  {
    m != map[] && forall k :: k in m ==> SafeName(k) && SafeRule(m[k])
  }

  /** Every name and rule survives printing, except that rules may be empty. */
  predicate PrintableMap(m: RuleMap)
  {
    forall k :: k in m ==> SafeName(k) && (m[k] == "" || SafeRule(m[k]))
  }

  lemma SafeRuleWords(rule: string)
    requires SafeRule(rule)
    ensures rule != "" && Clean(rule, "\r\n\0")
  {
    var ws := Tokens(rule, BREAKS);
    CutAreWords("", rule, BREAKS);
    JoinEmpty(ws);
    JoinNoBreaks(ws);
  }

  lemma {:induction false} JoinNoBreaks(ws: seq<string>)
    requires forall i :: 0 <= i < |ws| ==> Word(ws[i], BREAKS)
    ensures Clean(Join(ws), "\r\n")
    decreases |ws|
  {
    if |ws| > 1 {
      JoinNoBreaks(ws[..|ws| - 1]);
    }
  }

  lemma {:induction false} RuleTextWord(rs: RuleList)
    requires SafeOrMissing(rs) && rs != []
    ensures Word(RuleText(rs), "\r\n")
    decreases |rs|
  {
    var n := |rs| - 1;
    if rs[n].1 != "" {
      SafeRuleWords(rs[n].1);
    }
    if n > 0 {
      RuleTextWord(rs[..n]);
    } else {
      assert RuleText(rs[..0]) == "";
    }
  }

  lemma PrintablePairs(o: Orders, m: RuleMap)
    requires Enumerates(o) && PrintableMap(m) && m != map[]
    ensures SafeOrMissing(Pairs(o.names(m.Keys), m)) && Pairs(o.names(m.Keys), m) != []
    ensures Word(MapText(o, m), "\r\n")
  {
    var ks := o.names(m.Keys);
    var k :| k in m.Keys;
    assert k in ks;
    RuleTextWord(Pairs(ks, m));
  }

  /** A printed map without rules is nothing. */
  lemma BareText(o: Orders, m: RuleMap)
    requires Enumerates(o) && m == map[]
    ensures MapText(o, m) == ""
  {
    SomethingListed(o.names(m.Keys));
  }

  lemma {:induction false} SetAllRule(ks: seq<string>, m: RuleMap, info: FrameInfo, name: string)
    requires forall i :: 0 <= i < |ks| ==> ks[i] in m && m[ks[i]] != ""
    ensures SetAll(Pairs(ks, m), info).Rule(name) == if name in ks then Some(m[name]) else info.Rule(name)
    decreases |ks|
  {
    if ks != [] {
      var n := |ks| - 1;
      SetAllRule(ks[..n], m, info, name);
      assert Pairs(ks, m)[..n] == Pairs(ks[..n], m);
      assert ks == ks[..n] + [ks[n]];
    }
  }

  /** A printed rule map, parsed into `info`, overrides its rules by those of the map. */
  lemma MapTextParses(o: Orders, m: RuleMap, info: FrameInfo, name: string)
    requires Enumerates(o) && SafeMap(m)
    ensures ParseInto(MapText(o, m), info).0
    ensures ParseInto(MapText(o, m), info).1.Rule(name) == if name in m then Some(m[name]) else info.Rule(name)
  {
    var ks := o.names(m.Keys);
    PrintablePairs(o, m);
    assert SafeRules(Pairs(ks, m));
    ParseRuleText(Pairs(ks, m), info);
    forall i | 0 <= i < |ks|
      ensures ks[i] in m && m[ks[i]] != ""
    {
      assert ks[i] in m.Keys;
      SafeRuleWords(m[ks[i]]);
    }
    SetAllRule(ks, m, info, name);
  }

  /** A printed rule map with safe names is accepted exactly if no rule is missing. */
  lemma MapTextAccepted(o: Orders, m: RuleMap, info: FrameInfo)
    requires Enumerates(o) && m != map[] && PrintableMap(m)
    ensures ParseInto(MapText(o, m), info).0 <==> forall k :: k in m ==> m[k] != ""
  {
    var ks := o.names(m.Keys);
    var k :| k in m.Keys;
    assert k in ks;
    assert forall x :: x in ks <==> x in m.Keys;
    RuleTextAccepted(Pairs(ks, m), info);
    forall x | x in m
      ensures exists i :: 0 <= i < |ks| && Pairs(ks, m)[i] == (x, m[x])
    {
      assert x in ks;
      var i :| 0 <= i < |ks| && ks[i] == x;
      assert Pairs(ks, m)[i] == (x, m[x]);
    }
  }

  // ----- One line

  lemma PlatformCut(t: Tables, rest: string)
    ensures ParseStackInfo(t, "STACK CFI " + rest) == ParseCFIFrameInfo(t, rest)
  {
    var s := ("STACK CFI " + rest)[6..];
    assert s == "CFI" + [' '] + rest;
    RunStops(s, " \r\n\0", 3);
    assert s[..3] == "CFI" && s[4..] == rest;
  }

  lemma InitFieldsParse(t: Tables, a: string, z: string, rules: string)
    requires Word(a, " \r\n") && Word(z, " \r\n") && Word(rules, "\r\n")
    ensures ParseCFIFrameInfo(t, "INIT" + [' '] + (a + [' '] + (z + [' '] + rules))) ==
            (true, t.(initial := StoreRange(t.initial, StrToUl(a), StrToUl(z), rules).1))
  {
    var s2 := z + [' '] + rules;
    var s1 := a + [' '] + s2;
    NextTokenWord("INIT", ' ', s1, " \r\n");
    NextTokenWord(a, ' ', s2, " \r\n");
    NextTokenWord(z, ' ', rules, " \r\n");
    NextTokenAll(rules, "\r\n");
  }

  lemma SpacedFields(p: string, q: string, a: string, z: string, rules: string)
    ensures p + q + a + " " + z + " " + rules == p + (q + (a + [' '] + (z + [' '] + rules)))
  {
  }

  lemma InitLineParses(o: Orders, load: U64, e: StackFrameEntry, t: Tables)
    requires Enumerates(o) && PrintableMap(e.initial) && e.initial != map[]
    ensures "STACK " <= InitLine(o, load, e)
    ensures ParseStackInfo(t, InitLine(o, load, e)) ==
            (true, t.(initial := StoreRange(t.initial, Sub64(e.address, load), e.size, MapText(o, e.initial)).1))
  {
    var rules := MapText(o, e.initial);
    var a, z := Print(Sub64(e.address, load), 16), Print(e.size, 16);
    var s := "INIT" + [' '] + (a + [' '] + (z + [' '] + rules));
    SpacedFields("STACK CFI ", "INIT ", a, z, rules);
    assert "STACK CFI INIT " == "STACK CFI " + "INIT " && "INIT " == "INIT" + [' '];
    PlatformCut(t, s);
    PrintIsWord(Sub64(e.address, load), 16);
    PrintIsWord(e.size, 16);
    PrintablePairs(o, e.initial);
    InitFieldsParse(t, a, z, rules);
    HexRoundTrip(Sub64(e.address, load));
    HexRoundTrip(e.size);
  }

  /** The record of an entry without initial rules is rejected: its range is lost. */
  lemma BareInitRejected(o: Orders, load: U64, e: StackFrameEntry, t: Tables)
    requires Enumerates(o) && e.initial == map[]
    ensures "STACK " <= InitLine(o, load, e) && ParseStackInfo(t, InitLine(o, load, e)) == (false, t)
  {
    var a, z := Print(Sub64(e.address, load), 16), Print(e.size, 16);
    BareText(o, e.initial);
    var s := "INIT" + [' '] + (a + [' '] + (z + [' '] + ""));
    SpacedFields("STACK CFI ", "INIT ", a, z, "");
    assert "STACK CFI INIT " == "STACK CFI " + "INIT " && "INIT " == "INIT" + [' '];
    PlatformCut(t, s);
    PrintIsWord(Sub64(e.address, load), 16);
    PrintIsWord(e.size, 16);
    BareFieldsRejected(t, a, z);
  }

  lemma SomethingListed(ks: seq<string>)
    ensures ks == [] || exists k :: k in ks
  {
    if ks != [] {
      assert ks[0] in ks;
    }
  }

  lemma BareFieldsRejected(t: Tables, a: string, z: string)
    requires Word(a, " \r\n") && Word(z, " \r\n")
    ensures ParseCFIFrameInfo(t, "INIT" + [' '] + (a + [' '] + (z + [' '] + ""))) == (false, t)
  {
    var s2 := z + [' '] + "";
    var s1 := a + [' '] + s2;
    NextTokenWord("INIT", ' ', s1, " \r\n");
    NextTokenWord(a, ' ', s2, " \r\n");
    NextTokenWord(z, ' ', "", " \r\n");
  }

  lemma DeltaLineParses(o: Orders, load: U64, c: U64, m: RuleMap, t: Tables)
    requires Enumerates(o) && PrintableMap(m) && m != map[]
    ensures "STACK " <= DeltaLine(o, load, c, m)
    ensures ParseStackInfo(t, DeltaLine(o, load, c, m)) ==
            (true, t.(deltas := t.deltas[Sub64(c, load) := MapText(o, m)]))
  {
    var rules := MapText(o, m);
    var a := Print(Sub64(c, load), 16);
    var s := a + [' '] + rules;
    assert DeltaLine(o, load, c, m) == "STACK CFI " + s;
    PlatformCut(t, s);
    PrintIsWord(Sub64(c, load), 16);
    NextTokenWord(a, ' ', rules, " \r\n");
    PrintablePairs(o, m);
    NextTokenAll(rules, "\r\n");
    HexRoundTrip(Sub64(c, load));
  }

  // ----- All the lines

  /** The text of rule maps under given orders. */
  ghost function TextUnder(o: Orders): RuleMap -> string
  {
    m => if Enumerates(o) then MapText(o, m) else ""
  }

  /** An entry relative to the load address. */
  ghost function Relative(load: U64, e: StackFrameEntry): StackFrameEntry
  {
    StackFrameEntry(Sub64(e.address, load), e.size, e.initial, RelativeChanges(load, e.changes))
  }

  ghost function Offsets(load: U64, changes: map<U64, RuleMap>): set<U64>
  {
    set c | c in changes && load <= c :: c - load
  }

  ghost function RelativeChanges(load: U64, changes: map<U64, RuleMap>): map<U64, RuleMap>
  {
    map x | x in Offsets(load, changes) :: changes[x + load]
  }

  lemma OffsetExact(load: U64, changes: map<U64, RuleMap>, c: U64)
    requires load <= c
    ensures c - load in Offsets(load, changes) <==> c in changes
    ensures c - load in RelativeChanges(load, changes) <==> c in changes
    ensures c in changes ==> RelativeChanges(load, changes)[c - load] == changes[c]
  {
  }

  ghost function RelativeAll(load: U64, es: seq<StackFrameEntry>): (rs: seq<StackFrameEntry>)
    ensures |rs| == |es|
  {
    if es == [] then [] else RelativeAll(load, es[..|es| - 1]) + [Relative(load, es[|es| - 1])]
  }

  lemma {:induction false} RelativeAt(load: U64, es: seq<StackFrameEntry>, i: nat)
    requires i < |es|
    ensures RelativeAll(load, es)[i] == Relative(load, es[i])
    decreases |es|
  {
    if i < |es| - 1 {
      RelativeAt(load, es[..|es| - 1], i);
    }
  }

  /** Filing the texts of `f` at `xs`, one after another. */
  ghost function FileAll(deltas: map<U64, string>, xs: seq<U64>, f: map<U64, string>): map<U64, string>
    requires forall i :: 0 <= i < |xs| ==> xs[i] in f
  {
    if xs == [] then deltas else FileAll(deltas, xs[..|xs| - 1], f)[xs[|xs| - 1] := f[xs[|xs| - 1]]]
  }

  lemma {:induction false} FileAllLookup(deltas: map<U64, string>, xs: seq<U64>, f: map<U64, string>, x: U64)
    requires forall i :: 0 <= i < |xs| ==> xs[i] in f
    ensures x in FileAll(deltas, xs, f) <==> x in deltas || x in xs
    ensures x in xs ==> FileAll(deltas, xs, f)[x] == f[x]
    ensures x in deltas && x !in xs ==> FileAll(deltas, xs, f)[x] == deltas[x]
    decreases |xs|
  {
    if xs != [] {
      var n := |xs| - 1;
      FileAllLookup(deltas, xs[..n], f, x);
      assert xs == xs[..n] + [xs[n]];
    }
  }

  lemma FileAllIsUnion(deltas: map<U64, string>, xs: seq<U64>, f: map<U64, string>)
    requires forall x :: x in xs <==> x in f
    ensures FileAll(deltas, xs, f) == deltas + f
  {
    forall x: U64
      ensures x in FileAll(deltas, xs, f) <==> x in deltas + f
      ensures x in deltas + f ==> FileAll(deltas, xs, f)[x] == (deltas + f)[x]
    {
      FileAllLookup(deltas, xs, f, x);
    }
  }

  /** Reading `line` files `rules` as the change at `x`; stores `rules` for a range. */
  ghost predicate FilesAt(read: LineReader, line: string, x: U64, rules: string)
  {
    forall t: Tables :: read(t, line) == (true, t.(deltas := t.deltas[x := rules]))
  }

  ghost predicate StoresAt(read: LineReader, line: string, b: U64, size: U64, rules: string)
  {
    forall t: Tables :: read(t, line) == (true, t.(initial := StoreRange(t.initial, b, size, rules).1))
  }

  lemma LoadSnoc(read: LineReader, lines: seq<string>, line: string, t: Tables, errors: nat, ok: bool, u: Tables)
    requires Load(read, lines) == (t, errors) && errors <= MAX_ERRORS && read(t, line) == (ok, u)
    ensures Load(read, lines + [line]) == (u, if ok then errors else errors + 1)
  {
    assert (lines + [line])[..|lines|] == lines;
  }

  /** Lines of changes, read in order, file their rules. */
  lemma {:induction false} LoadDeltas(
      read: LineReader, lines: seq<string>, t: Tables, errors: nat, ds: seq<string>, xs: seq<U64>, f: map<U64, string>)
    requires Load(read, lines) == (t, errors) && errors <= MAX_ERRORS && |xs| == |ds|
    requires forall i :: 0 <= i < |xs| ==> xs[i] in f && FilesAt(read, ds[i], xs[i], f[xs[i]])
    ensures Load(read, lines + ds) == (t.(deltas := FileAll(t.deltas, xs, f)), errors)
    decreases |ds|
  {
    if ds == [] {
      assert lines + ds == lines;
    } else {
      var n := |ds| - 1;
      LoadDeltas(read, lines, t, errors, ds[..n], xs[..n], f);
      var u, v := t.(deltas := FileAll(t.deltas, xs[..n], f)), t.(deltas := FileAll(t.deltas, xs, f));
      assert FilesAt(read, ds[n], xs[n], f[xs[n]]);
      LoadSnoc(read, lines + ds[..n], ds[n], u, errors, true, v);
      SliceSnoc(ds, n);
      Regrouped(lines, ds[..n], ds[n]);
      assert ds[..n + 1] == ds;
    }
  }

  lemma Regrouped<T>(a: seq<T>, b: seq<T>, x: T)
    ensures a + b + [x] == a + (b + [x])
  {
  }

  /** Reading `line` is an error and changes nothing. */
  ghost predicate Refuses(read: LineReader, line: string)
  {
    forall t: Tables :: read(t, line) == (false, t)
  }

  /** `first` and `ds` are the records of the entry `r`; `xs` are the addresses of
      its changes in the order of `ds`. */
  ghost predicate Describes(read: LineReader, first: string, ds: seq<string>, xs: seq<U64>, text: RuleMap -> string, r: StackFrameEntry)
  {
    && |ds| == |xs|
    && (if r.initial == map[] then Refuses(read, first) else StoresAt(read, first, r.address, r.size, text(r.initial)))
    && (forall i :: 0 <= i < |xs| ==> xs[i] in r.changes && FilesAt(read, ds[i], xs[i], text(r.changes[xs[i]])))
    && (forall x :: x in xs <==> x in r.changes)
  }

  /** One error for an entry without initial rules. */
  function Fault(e: StackFrameEntry): nat
  {
    if e.initial == map[] then 1 else 0
  }

  lemma LoadEntry(
      read: LineReader, lines: seq<string>, t: Tables, errors: nat, first: string, ds: seq<string>, xs: seq<U64>,
      text: RuleMap -> string, r: StackFrameEntry)
    requires Load(read, lines) == (t, errors) && errors + Fault(r) <= MAX_ERRORS && Describes(read, first, ds, xs, text, r)
    ensures Load(read, lines + ([first] + ds)) == (AddEntry(text, t, r), errors + Fault(r))
  {
    var f := Filed(text, r.changes);
    assert forall i :: 0 <= i < |xs| ==> f[xs[i]] == text(r.changes[xs[i]]);
    if r.initial == map[] {
      LoadRecords(read, lines, t, errors, false, t, first, ds, xs, f);
    } else {
      var u := t.(initial := StoreRange(t.initial, r.address, r.size, text(r.initial)).1);
      LoadRecords(read, lines, t, errors, true, u, first, ds, xs, f);
    }
  }

  lemma LoadRecords(
      read: LineReader, lines: seq<string>, t: Tables, errors: nat, ok: bool, u: Tables, first: string, ds: seq<string>,
      xs: seq<U64>, f: map<U64, string>)
    requires Load(read, lines) == (t, errors) && read(t, first) == (ok, u) && |ds| == |xs|
    requires (if ok then errors else errors + 1) <= MAX_ERRORS
    requires forall i :: 0 <= i < |xs| ==> xs[i] in f && FilesAt(read, ds[i], xs[i], f[xs[i]])
    requires forall x :: x in xs <==> x in f
    ensures Load(read, lines + ([first] + ds)) == (u.(deltas := u.deltas + f), if ok then errors else errors + 1)
  {
    LoadSnoc(read, lines, first, t, errors, ok, u);
    LoadDeltas(read, lines + [first], u, if ok then errors else errors + 1, ds, xs, f);
    FileAllIsUnion(u.deltas, xs, f);
    Assoc(lines, [first], ds);
  }

  lemma DeltaLineFiles(o: Orders, load: U64, c: U64, m: RuleMap)
    requires Enumerates(o) && PrintableMap(m) && m != map[]
    ensures FilesAt(ReadLine, DeltaLine(o, load, c, m), Sub64(c, load), TextUnder(o)(m))
  {
    forall t: Tables
      ensures ReadLine(t, DeltaLine(o, load, c, m)) == (true, t.(deltas := t.deltas[Sub64(c, load) := TextUnder(o)(m)]))
    {
      DeltaLineParses(o, load, c, m, t);
    }
  }

  lemma InitLineStores(o: Orders, load: U64, e: StackFrameEntry)
    requires Enumerates(o) && PrintableMap(e.initial) && e.initial != map[]
    ensures StoresAt(ReadLine, InitLine(o, load, e), Sub64(e.address, load), e.size, TextUnder(o)(e.initial))
  {
    forall t: Tables
      ensures ReadLine(t, InitLine(o, load, e)) ==
              (true, t.(initial := StoreRange(t.initial, Sub64(e.address, load), e.size, TextUnder(o)(e.initial)).1))
    {
      InitLineParses(o, load, e, t);
    }
  }

  lemma BareInitRefused(o: Orders, load: U64, e: StackFrameEntry)
    requires Enumerates(o) && e.initial == map[]
    ensures Refuses(ReadLine, InitLine(o, load, e))
  {
    forall t: Tables
      ensures ReadLine(t, InitLine(o, load, e)) == (false, t)
    {
      BareInitRejected(o, load, e, t);
    }
  }

  /** Names and rules of the entry can be printed, and no change is empty; there may
      be empty rules, or no initial rules at all. */
  ghost predicate Loadable(e: StackFrameEntry)
  {
    PrintableMap(e.initial) && forall c :: c in e.changes ==> PrintableMap(e.changes[c]) && e.changes[c] != map[]
  }

  /** The order of the changes in the file, relative to the load address. */
  lemma RelativeOrder(load: U64, cs: seq<U64>, changes: map<U64, RuleMap>) returns (xs: seq<U64>)
    requires (forall c :: c in cs <==> c in changes) && forall c :: c in changes ==> load <= c
    ensures |xs| == |cs| && forall x :: x in xs <==> x in RelativeChanges(load, changes)
    ensures forall i :: 0 <= i < |cs| ==>
              cs[i] in changes && xs[i] == Sub64(cs[i], load) && RelativeChanges(load, changes)[xs[i]] == changes[cs[i]]
  {
    xs := seq(|cs|, i requires 0 <= i < |cs| => Sub64(cs[i], load));
    forall i | 0 <= i < |cs|
      ensures xs[i] in RelativeChanges(load, changes) && RelativeChanges(load, changes)[xs[i]] == changes[cs[i]]
    {
      assert cs[i] in cs;
      OffsetExact(load, changes, cs[i]);
    }
    forall x | x in RelativeChanges(load, changes)
      ensures x in xs
    {
      assert x in Offsets(load, changes);
      var c :| c in changes && load <= c && c - load == x;
      var i :| 0 <= i < |cs| && cs[i] == c;
      assert xs[i] == x;
    }
  }

  /** The records of an entry describe it, relative to the load address. */
  lemma RecordsDescribe(o: Orders, load: U64, e: StackFrameEntry) returns (xs: seq<U64>)
    requires Enumerates(o) && Loadable(e) && Above(load, e)
    ensures Describes(ReadLine, InitLine(o, load, e), DeltaLines(o, load, o.addresses(e.changes.Keys), e.changes), xs,
                      TextUnder(o), Relative(load, e))
  {
    var cs := o.addresses(e.changes.Keys);
    assert forall c :: c in cs <==> c in e.changes.Keys;
    xs := RelativeOrder(load, cs, e.changes);
    if e.initial == map[] {
      BareInitRefused(o, load, e);
    } else {
      InitLineStores(o, load, e);
    }
    var ds := DeltaLines(o, load, cs, e.changes);
    forall i | 0 <= i < |xs|
      ensures FilesAt(ReadLine, ds[i], xs[i], TextUnder(o)(e.changes[cs[i]]))
    {
      DeltaLineFiles(o, load, cs[i], e.changes[cs[i]]);
    }
    assert Relative(load, e).changes == RelativeChanges(load, e.changes);
    forall i | 0 <= i < |xs|
      ensures xs[i] in Relative(load, e).changes
      ensures FilesAt(ReadLine, ds[i], xs[i], TextUnder(o)(Relative(load, e).changes[xs[i]]))
    {
      assert xs[i] in xs;
      assert FilesAt(ReadLine, ds[i], xs[i], TextUnder(o)(e.changes[cs[i]]));
    }
  }

  lemma Assoc<T>(a: seq<T>, b: seq<T>, c: seq<T>)
    ensures a + b + c == a + (b + c)
  {
  }

  /** The number of entries without initial rules. */
  function Bare(es: seq<StackFrameEntry>): nat
  {
    if es == [] then 0 else Bare(es[..|es| - 1]) + Fault(es[|es| - 1])
  }

  /** How many entries are read before too many of them lack initial rules. */
  function Reach(es: seq<StackFrameEntry>): (n: nat)
    ensures n <= |es|
  {
    if Bare(es) <= MAX_ERRORS then |es| else Reach(es[..|es| - 1])
  }

  lemma {:induction false} BareGrows(es: seq<StackFrameEntry>, n: nat)
    requires n <= |es|
    ensures Bare(es[..n]) <= Bare(es)
    decreases |es|
  {
    if n < |es| {
      var m := |es| - 1;
      BareGrows(es[..m], n);
      assert es[..m][..n] == es[..n];
    } else {
      assert es[..n] == es;
    }
  }

  /** An entry is read exactly if, up to and with it, not too many lack rules. */
  lemma {:induction false} ReachExact(es: seq<StackFrameEntry>, k: nat)
    requires k < |es|
    ensures k < Reach(es) <==> Bare(es[..k]) + Fault(es[k]) <= MAX_ERRORS
    decreases |es|
  {
    var n := |es| - 1;
    assert es[..k + 1][..k] == es[..k];
    if Bare(es) <= MAX_ERRORS {
      BareGrows(es, k + 1);
    } else if k < n {
      ReachExact(es[..n], k);
      assert es[..n][..k] == es[..k];
    } else {
      assert es[..k + 1] == es;
    }
  }

  /** What a file must be to be read: its entries can be printed and lie above the load
      address. */
  ghost predicate AllLoadable(load: U64, es: seq<StackFrameEntry>)
  {
    forall i :: 0 <= i < |es| ==> Loadable(es[i]) && Above(load, es[i])
  }

  type Records = StackFrameEntry -> seq<string>
  type Shift = StackFrameEntry -> StackFrameEntry

  ghost function AllRecords(records: Records, es: seq<StackFrameEntry>): seq<string>
  {
    if es == [] then [] else AllRecords(records, es[..|es| - 1]) + records(es[|es| - 1])
  }

  ghost function AllShifted(shift: Shift, es: seq<StackFrameEntry>): seq<StackFrameEntry>
  {
    if es == [] then [] else AllShifted(shift, es[..|es| - 1]) + [shift(es[|es| - 1])]
  }

  /** Reading the records of `e`, after any others, adds the entry to the tables. */
  ghost predicate ReadsEntry(read: LineReader, text: RuleMap -> string, records: seq<string>, r: StackFrameEntry, fault: nat)
  {
    forall lines, rs, errors: nat {:trigger Follows(read, text, lines, records, rs, r, errors, fault)} ::
      errors + fault <= MAX_ERRORS ==> Follows(read, text, lines, records, rs, r, errors, fault)
  }

  ghost predicate Follows(
      read: LineReader, text: RuleMap -> string, lines: seq<string>, records: seq<string>, rs: seq<StackFrameEntry>, r: StackFrameEntry,
      errors: nat, fault: nat)
  {
    Load(read, lines) == (Build(text, rs), errors) ==> Load(read, lines + records) == (Build(text, rs + [r]), errors + fault)
  }

  lemma {:induction false} LoadAll(read: LineReader, text: RuleMap -> string, records: Records, shift: Shift, es: seq<StackFrameEntry>)
    requires Bare(es) <= MAX_ERRORS
    requires forall i :: 0 <= i < |es| ==> ReadsEntry(read, text, records(es[i]), shift(es[i]), Fault(es[i]))
    ensures Load(read, AllRecords(records, es)) == (Build(text, AllShifted(shift, es)), Bare(es))
    decreases |es|
  {
    if es != [] {
      var n := |es| - 1;
      var e := es[n];
      LoadAll(read, text, records, shift, es[..n]);
      assert ReadsEntry(read, text, records(e), shift(e), Fault(e));
      assert Follows(read, text, AllRecords(records, es[..n]), records(e), AllShifted(shift, es[..n]), shift(e), Bare(es[..n]), Fault(e));
    }
  }

  lemma {:induction false} AllLinesAreRecords(o: Orders, load: U64, es: seq<StackFrameEntry>)
    requires Enumerates(o)
    ensures AllRecords(RecordsUnder(o, load), es) == AllLines(o, load, es)
    decreases |es|
  {
    if es != [] {
      AllLinesAreRecords(o, load, es[..|es| - 1]);
    }
  }

  ghost function RecordsUnder(o: Orders, load: U64): Records
  {
    e => if Enumerates(o) then EntryLines(o, load, e) else []
  }

  /** Reading the records builds the tables, with one error for each entry that lacks
      initial rules and no other, as long as these are not too many. */
  lemma LoadAllLines(o: Orders, load: U64, es: seq<StackFrameEntry>)
    requires Enumerates(o) && AllLoadable(load, es) && Bare(es) <= MAX_ERRORS
    ensures Load(ReadLine, AllLines(o, load, es)) == (Build(TextUnder(o), RelativeAll(load, es)), Bare(es))
  {
    var shift := e => Relative(load, e);
    forall i | 0 <= i < |es|
      ensures ReadsEntry(ReadLine, TextUnder(o), RecordsUnder(o, load)(es[i]), shift(es[i]), Fault(es[i]))
    {
      OneIsRead(o, load, es[i]);
    }
    LoadAll(ReadLine, TextUnder(o), RecordsUnder(o, load), shift, es);
    AllLinesAreRecords(o, load, es);
    ShiftedAlike(load, shift, es);
  }

  /** Once there are too many errors nothing more is read. */
  lemma {:induction false} GivesUp(read: LineReader, lines: seq<string>, more: seq<string>)
    requires Load(read, lines).1 > MAX_ERRORS
    ensures Load(read, lines + more) == Load(read, lines)
    decreases |more|
  {
    if more == [] {
      assert lines + more == lines;
    } else {
      var n := |more| - 1;
      GivesUp(read, lines, more[..n]);
      assert (lines + more)[..|lines + more| - 1] == lines + more[..n];
    }
  }

  /** Reading the first of the records is an error. */
  ghost predicate RefusesFirst(read: LineReader, records: seq<string>)
  {
    records != [] && Refuses(read, records[0])
  }

  lemma {:induction false} LoadReach(read: LineReader, text: RuleMap -> string, records: Records, shift: Shift, es: seq<StackFrameEntry>)
    requires forall i :: 0 <= i < |es| ==> ReadsEntry(read, text, records(es[i]), shift(es[i]), Fault(es[i]))
    requires forall i :: 0 <= i < |es| && es[i].initial == map[] ==> RefusesFirst(read, records(es[i]))
    ensures Load(read, AllRecords(records, es)) == (Build(text, AllShifted(shift, es[..Reach(es)])), Errors(es))
    decreases |es|
  {
    if Bare(es) <= MAX_ERRORS {
      LoadAll(read, text, records, shift, es);
      assert es[..|es|] == es;
    } else {
      var n := |es| - 1;
      LoadReach(read, text, records, shift, es[..n]);
      assert es[..n][..Reach(es)] == es[..Reach(es)];
      var lines, t, more := AllRecords(records, es[..n]), Build(text, AllShifted(shift, es[..Reach(es)])), records(es[n]);
      if Bare(es[..n]) == MAX_ERRORS {
        LastFault(read, lines, t, more[0], more[1..]);
        assert more == [more[0]] + more[1..];
      } else {
        GivesUp(read, lines, more);
      }
    }
  }

  /** The errors counted by the time reading stops. */
  function Errors(es: seq<StackFrameEntry>): nat
  {
    if Bare(es) <= MAX_ERRORS then Bare(es) else MAX_ERRORS + 1
  }

  /** Reading the records of any number of entries. */
  lemma LoadReached(o: Orders, load: U64, es: seq<StackFrameEntry>)
    requires Enumerates(o) && AllLoadable(load, es)
    ensures Load(ReadLine, AllLines(o, load, es)) == (Build(TextUnder(o), RelativeAll(load, es[..Reach(es)])), Errors(es))
  {
    var shift := e => Relative(load, e);
    forall i | 0 <= i < |es|
      ensures ReadsEntry(ReadLine, TextUnder(o), RecordsUnder(o, load)(es[i]), shift(es[i]), Fault(es[i]))
      ensures es[i].initial == map[] ==> RefusesFirst(ReadLine, RecordsUnder(o, load)(es[i]))
    {
      OneIsRead(o, load, es[i]);
      if es[i].initial == map[] {
        BareInitRefused(o, load, es[i]);
      }
    }
    LoadReach(ReadLine, TextUnder(o), RecordsUnder(o, load), shift, es);
    AllLinesAreRecords(o, load, es);
    ShiftedAlike(load, shift, es[..Reach(es)]);
  }

  lemma LastFault(read: LineReader, lines: seq<string>, t: Tables, first: string, ds: seq<string>)
    requires Load(read, lines) == (t, MAX_ERRORS) && Refuses(read, first)
    ensures Load(read, lines + ([first] + ds)) == (t, MAX_ERRORS + 1)
  {
    LoadSnoc(read, lines, first, t, MAX_ERRORS, false, t);
    GivesUp(read, lines + [first], ds);
    Assoc(lines, [first], ds);
  }

  lemma {:induction false} ShiftedAlike(load: U64, shift: Shift, es: seq<StackFrameEntry>)
    requires forall e :: shift(e) == Relative(load, e)
    ensures AllShifted(shift, es) == RelativeAll(load, es)
    decreases |es|
  {
    if es != [] {
      ShiftedAlike(load, shift, es[..|es| - 1]);
    }
  }

  lemma OneIsRead(o: Orders, load: U64, e: StackFrameEntry)
    requires Enumerates(o) && Loadable(e) && Above(load, e)
    ensures ReadsEntry(ReadLine, TextUnder(o), EntryLines(o, load, e), Relative(load, e), Fault(e))
  {
    forall lines, rs, errors: nat | errors + Fault(e) <= MAX_ERRORS
      ensures Follows(ReadLine, TextUnder(o), lines, EntryLines(o, load, e), rs, Relative(load, e), errors, Fault(e))
    {
      if Load(ReadLine, lines) == (Build(TextUnder(o), rs), errors) {
        LoadOne(o, load, lines, rs, errors, e);
      }
    }
  }

  lemma LoadOne(o: Orders, load: U64, lines: seq<string>, rs: seq<StackFrameEntry>, errors: nat, e: StackFrameEntry)
    requires Enumerates(o) && Loadable(e) && Above(load, e) && errors + Fault(e) <= MAX_ERRORS
    requires Load(ReadLine, lines) == (Build(TextUnder(o), rs), errors)
    ensures Load(ReadLine, lines + EntryLines(o, load, e)) == (Build(TextUnder(o), rs + [Relative(load, e)]), errors + Fault(e))
  {
    var xs := RecordsDescribe(o, load, e);
    var ds := DeltaLines(o, load, o.addresses(e.changes.Keys), e.changes);
    LoadNext(ReadLine, lines, errors, InitLine(o, load, e), ds, xs, TextUnder(o), rs, Relative(load, e));
  }

  lemma LoadNext(
      read: LineReader, lines: seq<string>, errors: nat, first: string, ds: seq<string>, xs: seq<U64>,
      text: RuleMap -> string, rs: seq<StackFrameEntry>, r: StackFrameEntry)
    requires Load(read, lines) == (Build(text, rs), errors) && errors + Fault(r) <= MAX_ERRORS
    requires Describes(read, first, ds, xs, text, r)
    ensures Load(read, lines + ([first] + ds)) == (Build(text, rs + [r]), errors + Fault(r))
  {
    LoadEntry(read, lines, Build(text, rs), errors, first, ds, xs, text, r);
    BuildSnoc(text, rs, r);
  }

  lemma BuildSnoc(text: RuleMap -> string, rs: seq<StackFrameEntry>, r: StackFrameEntry)
    ensures Build(text, rs + [r]) == AddEntry(text, Build(text, rs), r)
  {
    assert (rs + [r])[..|rs|] == rs;
  }

  /** Nothing in the entry is below the load address. */
  ghost predicate Above(load: U64, e: StackFrameEntry)
  {
    load <= e.address && forall c :: c in e.changes ==> load <= c
  }

  // ----- The file as text

  lemma {:induction false} FileTokens(lines: seq<string>)
    requires forall i :: 0 <= i < |lines| ==> Word(lines[i], "\r\n")
    ensures Tokens(FileText(lines), "\r\n") == lines
    decreases |lines|
  {
    if lines == [] {
      assert Tokens("", "\r\n") == [];
    } else {
      var n := |lines| - 1;
      FileTokens(lines[..n]);
      CutLine(FileText(lines[..n]), lines[n]);
      SliceSnoc(lines, n);
      assert lines[..n + 1] == lines;
    }
  }

  /** A last line adds one token. */
  lemma CutLine(text: string, line: string)
    requires Word(line, "\r\n") && (text != "" ==> text[|text| - 1] == '\n')
    ensures Tokens(text + line + "\n", "\r\n") == Tokens(text, "\r\n") + [line]
  {
    assert text + line + "\n" == (text + line) + ['\n'] + "";
    TokensConcat(text + line, '\n', "", "\r\n");
    LoneWord(line, "\r\n");
    assert Tokens("", "\r\n") == [];
    if text == "" {
      assert text + line == line;
    } else {
      var m := |text| - 1;
      assert text == text[..m] + ['\n'] + "";
      assert text + line == text[..m] + ['\n'] + line;
      TokensConcat(text[..m], '\n', "", "\r\n");
      TokensConcat(text[..m], '\n', line, "\r\n");
    }
  }

  lemma CleanConcat(s: string, t: string, breaks: string)
    requires Clean(s, breaks) && Clean(t, breaks)
    ensures Clean(s + t, breaks)
  {
  }

  lemma CleanSpaced(s: string, t: string, u: string, breaks: string)
    requires Clean(s, breaks) && Clean(t, breaks) && Clean(u, breaks) && ' ' !in breaks
    ensures Clean(s + t + " " + u, breaks)
  {
  }

  lemma InitLineIsWord(o: Orders, load: U64, e: StackFrameEntry)
    requires Enumerates(o) && PrintableMap(e.initial)
    ensures Word(InitLine(o, load, e), "\r\n")
  {
    var a, z := Print(Sub64(e.address, load), 16), Print(e.size, 16);
    if e.initial == map[] {
      BareText(o, e.initial);
    } else {
      PrintablePairs(o, e.initial);
    }
    PrintIsWord(Sub64(e.address, load), 16);
    PrintIsWord(e.size, 16);
    CleanSpaced("STACK CFI INIT ", a, z, "\r\n");
    CleanConcat("STACK CFI INIT " + a + " " + z, " ", "\r\n");
    CleanConcat("STACK CFI INIT " + a + " " + z + " ", MapText(o, e.initial), "\r\n");
  }

  lemma DeltaLineIsWord(o: Orders, load: U64, c: U64, m: RuleMap)
    requires Enumerates(o) && PrintableMap(m) && m != map[]
    ensures Word(DeltaLine(o, load, c, m), "\r\n")
  {
    var a := Print(Sub64(c, load), 16);
    PrintablePairs(o, m);
    PrintIsWord(Sub64(c, load), 16);
    CleanSpaced("STACK CFI ", a, MapText(o, m), "\r\n");
  }

  lemma {:induction false} AllLinesAreWords(o: Orders, load: U64, es: seq<StackFrameEntry>)
    requires Enumerates(o) && forall i :: 0 <= i < |es| ==> Loadable(es[i])
    ensures forall i :: 0 <= i < |AllLines(o, load, es)| ==> Word(AllLines(o, load, es)[i], "\r\n")
    decreases |es|
  {
    if es != [] {
      var n := |es| - 1;
      var e := es[n];
      AllLinesAreWords(o, load, es[..n]);
      InitLineIsWord(o, load, e);
      var cs := o.addresses(e.changes.Keys);
      forall i | 0 <= i < |cs|
        ensures Word(DeltaLines(o, load, cs, e.changes)[i], "\r\n")
      {
        assert cs[i] in e.changes.Keys;
        DeltaLineIsWord(o, load, cs[i], e.changes[cs[i]]);
      }
    }
  }

  /** From entries to text and back: the whole text loads into the tables. */
  lemma TextLoads(o: Orders, load: U64, es: seq<StackFrameEntry>)
    requires Enumerates(o) && AllLoadable(load, es)
    ensures Load(ReadLine, Tokens(FileText(AllLines(o, load, es)), "\r\n")) ==
            (Build(TextUnder(o), RelativeAll(load, es[..Reach(es)])), Errors(es))
  {
    AllLinesAreWords(o, load, es);
    FileTokens(AllLines(o, load, es));
    LoadReached(o, load, es);
  }

  // ----- What is found

  lemma TextIsFaithful(o: Orders)
    requires Enumerates(o)
    ensures Faithful(ParseInto, TextUnder(o), SafeMap)
  {
    forall m, info, name | SafeMap(m)
      ensures Overrides(ParseInto(TextUnder(o)(m), info), m, info, name)
    {
      MapTextParses(o, m, info, name);
    }
  }

  lemma RelativePlaced(load: U64, es: seq<StackFrameEntry>)
    requires Placed(es) && forall i :: 0 <= i < |es| ==> Above(load, es[i])
    ensures Placed(RelativeAll(load, es))
  {
    var rs := RelativeAll(load, es);
    forall i | 0 <= i < |rs|
      ensures PlacedEntry(rs[i])
    {
      RelativeAt(load, es, i);
      forall x | x in rs[i].changes
        ensures CfiTables.Within(rs[i], x)
      {
        assert x in Offsets(load, es[i].changes);
        var c :| c in es[i].changes && load <= c && c - load == x;
        assert CfiTables.Within(es[i], c);
      }
    }
    forall i, j | 0 <= i < j < |rs|
      ensures Clear(rs[i], rs[j])
    {
      RelativeAt(load, es, i);
      RelativeAt(load, es, j);
      assert Clear(es[i], es[j]);
    }
  }

  lemma {:induction false} RuleAtRelative(load: U64, e: StackFrameEntry, name: string, c: int)
    requires Above(load, e) && e.address - 1 <= c < TWO_64
    ensures RuleAt(Relative(load, e), name, c - load) == RuleAt(e, name, c)
    decreases c - e.address
  {
    if e.address <= c {
      OffsetExact(load, e.changes, c);
      RuleAtRelative(load, e, name, c - 1);
      assert c - 1 - load == c - load - 1;
    }
  }

  /** The tables read back from the printed text of the entries. */
  ghost function ReadBack(o: Orders, load: U64, es: seq<StackFrameEntry>): Tables
    requires Enumerates(o)
  {
    Load(ReadLine, Tokens(FileText(AllLines(o, load, es)), "\r\n")).0
  }

  /** From disjoint entries through the printed text and the tables read from it: if
      the entry holding `c` is safe and is read at all, the lookup at `c` finds for
      every name the rule that this entry puts in force there, whatever the others are
      like. */
  lemma TextFinds(o: Orders, load: U64, es: seq<StackFrameEntry>, c: U64, k: nat, name: string)
    requires Enumerates(o) && Placed(es) && AllLoadable(load, es)
    requires load <= c && k < |es| && CfiTables.Within(es[k], c) && SafeEntry(SafeMap, es[k]) && Bare(es[..k]) <= MAX_ERRORS
    ensures Finds(ParseInto, ReadBack(o, load, es), Sub64(c, load), name, RuleAt(es[k], name, c))
  {
    TextLoads(o, load, es);
    TextIsFaithful(o);
    ReachExact(es, k);
    ReachedFinds(ParseInto, TextUnder(o), SafeMap, load, es, Reach(es), c, Sub64(c, load), k, name, RuleAt(es[k], name, c));
  }

  lemma ReachedFinds(
      parse: Parser, text: RuleMap -> string, safe: MapTest, load: U64, es: seq<StackFrameEntry>, n: nat, c: U64, a: U64, k: nat,
      name: string, rule: Option<string>)
    requires Faithful(parse, text, safe) && Placed(es) && a == c - load && k < n <= |es|
    requires CfiTables.Within(es[k], c) && RuleAt(es[k], name, c) == rule
    requires es[k].initial != map[] && SafeEntry(safe, es[k]) && forall i :: 0 <= i < |es| ==> Above(load, es[i])
    ensures Finds(parse, Build(text, RelativeAll(load, es[..n])), a, name, rule)
  {
    PlacedPrefix(es, n);
    RelativeFinds(parse, text, safe, load, es[..n], c, a, k, name, rule);
  }

  /** Anything is found at `c` exactly if the entry holding `c` is read, has initial
      rules, and none of these is empty. */
  lemma TextFoundExact(o: Orders, load: U64, es: seq<StackFrameEntry>, c: U64, k: nat)
    requires Enumerates(o) && Placed(es) && AllLoadable(load, es)
    requires load <= c && k < |es| && CfiTables.Within(es[k], c)
    ensures Find(ParseInto, ReadBack(o, load, es), Sub64(c, load)).Some? <==>
            && Bare(es[..k]) <= MAX_ERRORS && es[k].initial != map[]
            && forall name :: name in es[k].initial ==> es[k].initial[name] != ""
  {
    TextLoads(o, load, es);
    ReachExact(es, k);
    ReachedFound(ParseInto, TextUnder(o), load, es, Reach(es), c, Sub64(c, load), k);
    if es[k].initial != map[] {
      MapTextAccepted(o, es[k].initial, EMPTY);
    }
  }

  lemma ReachedFound(
      parse: Parser, text: RuleMap -> string, load: U64, es: seq<StackFrameEntry>, n: nat, c: U64, a: U64, k: nat)
    requires Placed(es) && a == c - load && k < |es| && n <= |es| && CfiTables.Within(es[k], c)
    requires forall i :: 0 <= i < |es| ==> Above(load, es[i])
    ensures Find(parse, Build(text, RelativeAll(load, es[..n])), a).Some? <==>
            k < n && es[k].initial != map[] && parse(text(es[k].initial), EMPTY).0
  {
    PlacedPrefix(es, n);
    if k < n {
      RelativeFound(parse, text, load, es[..n], c, a, k);
    } else {
      forall i | 0 <= i < n
        ensures !CfiTables.Within(es[..n][i], c)
      {
        assert Clear(es[i], es[k]);
      }
      RelativeFindsNone(parse, text, load, es[..n], c, a);
    }
  }

  lemma RelativeFound(
      parse: Parser, text: RuleMap -> string, load: U64, es: seq<StackFrameEntry>, c: U64, a: U64, k: nat)
    requires Placed(es) && a == c - load && k < |es| && CfiTables.Within(es[k], c)
    requires forall i :: 0 <= i < |es| ==> Above(load, es[i])
    ensures Find(parse, Build(text, RelativeAll(load, es)), a).Some? <==>
            es[k].initial != map[] && parse(text(es[k].initial), EMPTY).0
  {
    RelativePlaced(load, es);
    RelativeAt(load, es, k);
    FoundInEntry(parse, text, RelativeAll(load, es), a, k);
  }

  lemma RelativeFinds(
      parse: Parser, text: RuleMap -> string, safe: MapTest, load: U64, es: seq<StackFrameEntry>, c: U64, a: U64, k: nat, name: string,
      rule: Option<string>)
    requires Faithful(parse, text, safe) && Placed(es) && a == c - load
    requires k < |es| && CfiTables.Within(es[k], c) && RuleAt(es[k], name, c) == rule
    requires es[k].initial != map[] && SafeEntry(safe, es[k]) && forall i :: 0 <= i < |es| ==> Above(load, es[i])
    ensures Finds(parse, Build(text, RelativeAll(load, es)), a, name, rule)
  {
    RelativePlaced(load, es);
    RelativeHolds(safe, load, es, c, a, k, name, rule);
    FindInEntry(parse, text, safe, RelativeAll(load, es), a, k, name, rule);
  }

  lemma RelativeHolds(
      safe: MapTest, load: U64, es: seq<StackFrameEntry>, c: U64, a: U64, k: nat, name: string, rule: Option<string>)
    requires a == c - load && k < |es| && CfiTables.Within(es[k], c) && SafeEntry(safe, es[k]) && Above(load, es[k])
    requires RuleAt(es[k], name, c) == rule
    ensures SafeEntry(safe, RelativeAll(load, es)[k]) && CfiTables.Within(RelativeAll(load, es)[k], a)
    ensures RuleAt(RelativeAll(load, es)[k], name, a) == rule && RelativeAll(load, es)[k].initial == es[k].initial
  {
    RelativeAt(load, es, k);
    RelativeSafe(safe, load, es[k]);
    RuleAtRelative(load, es[k], name, c);
  }

  lemma RelativeSafe(safe: MapTest, load: U64, e: StackFrameEntry)
    requires SafeEntry(safe, e)
    ensures SafeEntry(safe, Relative(load, e))
  {
  }

  /** Outside the entries nothing is found. */
  lemma TextFindsNone(o: Orders, load: U64, es: seq<StackFrameEntry>, c: U64)
    requires Enumerates(o) && Placed(es) && AllLoadable(load, es) && load <= c
    requires forall i :: 0 <= i < |es| ==> !CfiTables.Within(es[i], c)
    ensures Find(ParseInto, ReadBack(o, load, es), Sub64(c, load)).None?
  {
    TextLoads(o, load, es);
    ReachedFindsNone(ParseInto, TextUnder(o), load, es, Reach(es), c, Sub64(c, load));
  }

  lemma ReachedFindsNone(
      parse: Parser, text: RuleMap -> string, load: U64, es: seq<StackFrameEntry>, n: nat, c: U64, a: U64)
    requires Placed(es) && a == c - load && n <= |es|
    requires forall i :: 0 <= i < |es| ==> Above(load, es[i]) && !CfiTables.Within(es[i], c)
    ensures Find(parse, Build(text, RelativeAll(load, es[..n])), a).None?
  {
    PlacedPrefix(es, n);
    RelativeFindsNone(parse, text, load, es[..n], c, a);
  }

  lemma RelativeFindsNone(parse: Parser, text: RuleMap -> string, load: U64, es: seq<StackFrameEntry>, c: U64, a: U64)
    requires Placed(es) && a == c - load
    requires forall i :: 0 <= i < |es| ==> Above(load, es[i]) && !CfiTables.Within(es[i], c)
    ensures Find(parse, Build(text, RelativeAll(load, es)), a).None?
  {
    RelativePlaced(load, es);
    forall i | 0 <= i < |es|
      ensures !CfiTables.Within(RelativeAll(load, es)[i], c - load)
    {
      RelativeAt(load, es, i);
    }
    FindOutside(parse, text, RelativeAll(load, es), a);
  }
}
