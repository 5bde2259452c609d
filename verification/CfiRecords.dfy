/** STACK CFI records: entries written to a symbol file as text, read back into
    tables, and looked up by address.
 */
module CfiRecords {
  import opened Machine
  import opened Texts
  import opened CfiRules
  import opened RangeMaps

  type RuleMap = map<string, string>

  /** `Module::StackFrameEntry`. */
  datatype StackFrameEntry = StackFrameEntry(
    address: U64, size: U64, initial: RuleMap, changes: map<U64, RuleMap>)

  /** The orders in which `std::map` hands out its keys, as functions of the set of
      keys. Nothing here depends on what they are. */
  datatype Orders = Orders(names: set<string> -> seq<string>, addresses: set<U64> -> seq<U64>)

  ghost predicate Enumerates(o: Orders)
  {
    && (forall ks: set<string>, k :: k in o.names(ks) <==> k in ks)
    && (forall ks: set<U64>, k :: k in o.addresses(ks) <==> k in ks)
  }

  ghost function Listed<T>(s: set<T>): seq<T>
  {
    if s == {} then [] else var x :| x in s; [x] + Listed(s - {x})
  }

  lemma {:induction false} ListedExact<T>(s: set<T>, k: T)
    ensures k in Listed(s) <==> k in s
    decreases s
  {
    if s != {} {
      var x :| x in s && Listed(s) == [x] + Listed(s - {x});
      ListedExact(s - {x}, k);
    }
  }

  /** There are such orders. */
  lemma OrdersExist() returns (o: Orders)
    ensures Enumerates(o)
  {
    o := Orders(s => Listed(s), s => Listed(s));
    forall s: set<string>, k
      ensures k in Listed(s) <==> k in s
    {
      ListedExact(s, k);
    }
    forall s: set<U64>, k
      ensures k in Listed(s) <==> k in s
    {
      ListedExact(s, k);
    }
  }

  // ----- Writing

  function MapText(o: Orders, m: RuleMap): string
    requires Enumerates(o)
  {
    RuleText(Pairs(o.names(m.Keys), m))
  }

  /** `Module::WriteRuleMap`. */
  method WriteRuleMap(o: Orders, m: RuleMap) returns (text: string)
    requires Enumerates(o)
    ensures text == MapText(o, m)
  {
    var ks := o.names(m.Keys);
    text := "";
    assert Pairs(ks[..0], m) == [];
    for i := 0 to |ks|
      invariant text == RuleText(Pairs(ks[..i], m))
    {
      RuleTextAppend(Pairs(ks[..i], m), ks[i], m[ks[i]]);
      assert Pairs(ks[..i + 1], m) == Pairs(ks[..i], m) + [(ks[i], m[ks[i]])];
      if i != 0 {
        text := text + " ";
      }
      text := text + ks[i] + ": " + m[ks[i]];
    }
    assert ks[..|ks|] == ks;
  }

  function InitLine(o: Orders, load: U64, e: StackFrameEntry): string
    requires Enumerates(o)
  {
    "STACK CFI INIT " + Print(Sub64(e.address, load), 16) + " " + Print(e.size, 16) + " " + MapText(o, e.initial)
  }

  function DeltaLine(o: Orders, load: U64, address: U64, m: RuleMap): string
    requires Enumerates(o)
  {
    "STACK CFI " + Print(Sub64(address, load), 16) + " " + MapText(o, m)
  }

  function DeltaLines(o: Orders, load: U64, cs: seq<U64>, changes: map<U64, RuleMap>): (r: seq<string>)
    requires Enumerates(o) && forall c :: c in cs ==> c in changes
    ensures |r| == |cs| && forall i :: 0 <= i < |cs| ==> r[i] == DeltaLine(o, load, cs[i], changes[cs[i]])
  {
    seq(|cs|, i requires 0 <= i < |cs| => DeltaLine(o, load, cs[i], changes[cs[i]]))
  }

  function EntryLines(o: Orders, load: U64, e: StackFrameEntry): seq<string>
    requires Enumerates(o)
  {
    [InitLine(o, load, e)] + DeltaLines(o, load, o.addresses(e.changes.Keys), e.changes)
  }

  function AllLines(o: Orders, load: U64, es: seq<StackFrameEntry>): seq<string>
    requires Enumerates(o)
  {
    if es == [] then [] else AllLines(o, load, es[..|es| - 1]) + EntryLines(o, load, es[|es| - 1])
  }

  /** Lines with their line ends. */
  function FileText(lines: seq<string>): string
  {
    if lines == [] then "" else FileText(lines[..|lines| - 1]) + lines[|lines| - 1] + "\n"
  }

  /** The STACK CFI part of `Module::Write`, as the lines it ends with `endl`. */
  method WriteStackCFI(o: Orders, load: U64, es: seq<StackFrameEntry>) returns (lines: seq<string>)
    requires Enumerates(o)
    ensures lines == AllLines(o, load, es)
  {
    lines := [];
    for n := 0 to |es|
      invariant lines == AllLines(o, load, es[..n])
    {
      var records := WriteEntry(o, load, es[n]);
      lines := lines + records;
      assert es[..n + 1][..n] == es[..n];
    }
    assert es[..|es|] == es;
  }

  /** One entry's records. */
  method WriteEntry(o: Orders, load: U64, e: StackFrameEntry) returns (lines: seq<string>)
    requires Enumerates(o)
    ensures lines == EntryLines(o, load, e)
  {
    var rules := WriteRuleMap(o, e.initial);
    var init := "STACK CFI INIT " + Print(Sub64(e.address, load), 16) + " " + Print(e.size, 16) + " " + rules;
    var ds := WriteDeltas(o, load, o.addresses(e.changes.Keys), e.changes);
    lines := [init] + ds;
  }

  method WriteDeltas(o: Orders, load: U64, cs: seq<U64>, changes: map<U64, RuleMap>) returns (lines: seq<string>)
    requires Enumerates(o) && forall i :: 0 <= i < |cs| ==> cs[i] in changes
    ensures lines == DeltaLines(o, load, cs, changes)
  {
    lines := [];
    for i := 0 to |cs|
      invariant |lines| == i && lines == DeltaLines(o, load, cs, changes)[..i]
    {
      var line := WriteDelta(o, load, cs[i], changes[cs[i]]);
      SliceSnoc(DeltaLines(o, load, cs, changes), i);
      lines := lines + [line];
    }
  }

  method WriteDelta(o: Orders, load: U64, address: U64, m: RuleMap) returns (line: string)
    requires Enumerates(o)
    ensures line == DeltaLine(o, load, address, m)
  {
    var rules := WriteRuleMap(o, m);
    line := "STACK CFI " + Print(Sub64(address, load), 16) + " " + rules;
  }

  // ----- Reading

  /** The two tables of the source line resolver. */
  datatype Tables = Tables(initial: RangeMap<string>, deltas: map<U64, string>)

  const NO_TABLES: Tables := Tables([], map[])

  /** `ParseCFIFrameInfo`. */
  function ParseCFIFrameInfo(t: Tables, s: string): (bool, Tables)
  {
    match NextToken(s, " \r\n")
    case None => (false, t)
    case Some((first, s1)) =>
      if first == "INIT" then
        match NextToken(s1, " \r\n")
        case None => (false, t)
        case Some((addressField, s2)) =>
          match NextToken(s2, " \r\n")
          case None => (false, t)
          case Some((sizeField, s3)) =>
            match NextToken(s3, "\r\n")
            case None => (false, t)
            case Some((rules, _)) =>
              (true, t.(initial := StoreRange(t.initial, StrToUl(addressField), StrToUl(sizeField), rules).1))
      else
        match NextToken(s1, "\r\n")
        case None => (false, t)
        case Some((rules, _)) => (true, t.(deltas := t.deltas[StrToUl(first) := rules]))
  }

  /** `ParseStackInfo` of a line that starts with "STACK ", for the CFI platform. */
  function ParseStackInfo(t: Tables, line: string): (bool, Tables)
    requires |line| >= 6
  {
    var s := Skip(line[6..], " ");
    var n := Run(s, " \r\n\0");
    if s[..n] == "CFI" then ParseCFIFrameInfo(t, if n < |s| then s[n + 1..] else "") else (false, t)
  }

  /** A line of the symbol file, as far as the tables are concerned. */
  function ReadLine(t: Tables, line: string): (bool, Tables)
  {
    if "STACK " <= line then ParseStackInfo(t, line) else (true, t)
  }

  type LineReader = (Tables, string) -> (bool, Tables)

  const MAX_ERRORS: nat := 100

  /** The loop of `LoadMapFromMemory`: the tables filled so far and the number of
      errors; it bails out once there are too many. */
  function Load(read: LineReader, lines: seq<string>): (Tables, nat)
  {
    if lines == [] then (NO_TABLES, 0)
    else
      var (t, errors) := Load(read, lines[..|lines| - 1]);
      if errors > MAX_ERRORS then (t, errors)
      else
        var (ok, t') := read(t, lines[|lines| - 1]);
        (t', if ok then errors else errors + 1)
  }

  // ----- Looking up

  /** A way of parsing rules into a frame info. */
  type Parser = (string, FrameInfo) -> (bool, FrameInfo)

  /** The rule set parser. */
  function ParseInto(rules: string, info: FrameInfo): (bool, FrameInfo)
  {
    ParseTokens(Tokens(CString(rules), BREAKS), "", "", info)
  }

  /** The changes filed at addresses from `lo` to `a`, applied in address order; a
      change that does not parse leaves what it set before it failed. */
  ghost function ApplyDeltas(parse: Parser, deltas: map<U64, string>, lo: int, a: int, info: FrameInfo): FrameInfo
    decreases a - lo
  {
    if a < lo then info
    else
      var before := ApplyDeltas(parse, deltas, lo, a - 1, info);
      if a in deltas then parse(deltas[a], before).1 else before
  }

  /** What `FindCFIFrameInfo` is to answer. */
  ghost function Find(parse: Parser, t: Tables, a: U64): Option<FrameInfo>
  {
    match RetrieveRange(t.initial, a)
    case None => None
    case Some(it) =>
      var (ok, info) := parse(it.value, EMPTY);
      if ok then Some(ApplyDeltas(parse, t.deltas, it.base, a, info)) else None
  }

  /** The least key of at least `k`: `lower_bound` of an ordered map. */
  method LeastKey<V>(m: map<U64, V>, k: int) returns (r: Option<U64>)
    ensures r.None? ==> forall x :: x in m ==> x < k
    ensures r.Some? ==> r.value in m && k <= r.value && forall x :: x in m && k <= x ==> r.value <= x
  {
    var left := m.Keys;
    r := None;
    while left != {}
      invariant left <= m.Keys
      invariant r.None? ==> forall x :: x in m && x !in left ==> x < k
      invariant r.Some? ==> r.value in m && k <= r.value
      invariant r.Some? ==> forall x :: x in m && x !in left && k <= x ==> r.value <= x
      decreases left
    {
      var x :| x in left;
      if k <= x && (r.None? || x < r.value) {
        r := Some(x);
      }
      left := left - {x};
    }
  }

  lemma {:induction false} ApplyGap(parse: Parser, deltas: map<U64, string>, lo: int, b: int, a: int, info: FrameInfo)
    requires b <= a && forall x :: x in deltas && lo <= x ==> !(b < x <= a)
    ensures ApplyDeltas(parse, deltas, lo, a, info) == ApplyDeltas(parse, deltas, lo, b, info)
    decreases a - b
  {
    if b < a && lo <= a {
      ApplyGap(parse, deltas, lo, b, a - 1, info);
    }
  }

  /** `FindCFIFrameInfo`. */
  method FindCFIFrameInfo(t: Tables, a: U64) returns (r: Option<FrameInfo>)
    ensures r == Find(ParseInto, t, a)
  {
    var item := RetrieveRange(t.initial, a);
    if item.None? {
      return None;
    }
    var base := item.value.base;
    var ok, rules := Parse(item.value.value, EMPTY);
    if !ok {
      return None;
    }
    ghost var start := rules;
    var delta := LeastKey(t.deltas, base);
    ghost var done: int := base - 1;
    while delta.Some? && delta.value <= a
      invariant base - 1 <= done && (done <= a || done < base)
      invariant delta.Some? ==> delta.value in t.deltas && done < delta.value
      invariant delta.Some? ==> base <= delta.value
      invariant forall x :: x in t.deltas && base <= x && done < x ==> delta.Some? && delta.value <= x
      invariant rules == ApplyDeltas(ParseInto, t.deltas, base, done, start)
      decreases a - done
    {
      ApplyGap(ParseInto, t.deltas, base, done, delta.value - 1, start);
      var parsed;
      parsed, rules := Parse(t.deltas[delta.value], rules);
      done := delta.value;
      delta := LeastKey(t.deltas, delta.value + 1);
    }
    if done <= a {
      ApplyGap(ParseInto, t.deltas, base, done, a, start);
    }
    r := Some(rules);
  }
}
