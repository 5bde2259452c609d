/** Call frame information as the DWARF reader reports it, turned into stack frame
    entries; and, across the symbol file, what a lookup finds of it.
 */
module CfiDwarf {
  import opened Machine
  import opened Texts
  import opened CfiRules
  import opened CfiRecords
  import opened CfiTables
  import opened CfiMeaning

  const CFA_REGISTER: int := -1

  // ----- What the reader reports

  datatype Rule =
    | Undefined
    | SameValue
    | Offset(base: int, offset: int)
    | ValOffset(base: int, offset: int)
    | Register(base: int)
    | Expression(code: string)
    | ValExpression(code: string)
  {
    /** The CFA pseudoregister or a register number. */
    predicate Cited()
    {
      (Offset? || ValOffset? || Register?) ==> CFA_REGISTER <= base
    }
  }

  /** One rule callback. */
  datatype Event = Event(address: U64, reg: int, rule: Rule) {
    predicate Cited()
    {
      CFA_REGISTER <= reg && rule.Cited()
    }
  }

  /** Everything reported for one frame description entry. */
  datatype Fde = Fde(address: U64, size: U64, returnAddress: nat, events: seq<Event>)

  ghost predicate AllCited(evs: seq<Event>)
  {
    forall i :: 0 <= i < |evs| ==> evs[i].Cited()
  }

  // ----- Names and rules as text

  const UNNAMED: string := "unnamed_register"

  function RegisterName(names: seq<string>, ra: nat, reg: int): string
    requires CFA_REGISTER <= reg
  {
    if reg < 0 then CFA
    else if reg == ra then RA
    else if reg < |names| && names[reg] != "" then names[reg]
    else UNNAMED + Print(reg, 10)
  }

  /** The text recorded for a rule; none if the rule is not supported. */
  function TextOf(names: seq<string>, ra: nat, reg: int, rule: Rule): Option<string>
    requires CFA_REGISTER <= reg && rule.Cited()
  {
    match rule
    case SameValue => Some(RegisterName(names, ra, reg))
    case Offset(base, offset) => Some(RegisterName(names, ra, base) + " " + PrintSigned(offset) + " + ^")
    case ValOffset(base, offset) => Some(RegisterName(names, ra, base) + " " + PrintSigned(offset) + " +")
    case Register(base) => Some(RegisterName(names, ra, base))
    case _ => None
  }

  // ----- Filing rules in an entry

  function Started(names: seq<string>, address: U64, size: U64, ra: nat): StackFrameEntry
  {
    StackFrameEntry(address, size, if ra < |names| then map[RA := names[ra]] else map[], map[])
  }

  function Recorded(e: StackFrameEntry, address: U64, name: string, rule: string): StackFrameEntry
  {
    if address == e.address then e.(initial := e.initial[name := rule])
    else
      var m := if address in e.changes then e.changes[address] else map[];
      e.(changes := e.changes[address := m[name := rule]])
  }

  function Happened(names: seq<string>, ra: nat, e: StackFrameEntry, ev: Event): StackFrameEntry
    requires ev.Cited()
  {
    match TextOf(names, ra, ev.reg, ev.rule)
    case None => e
    case Some(text) => Recorded(e, ev.address, RegisterName(names, ra, ev.reg), text)
  }

  function AllHappened(names: seq<string>, ra: nat, e: StackFrameEntry, evs: seq<Event>): StackFrameEntry
    requires AllCited(evs)
  {
    if evs == [] then e
    else Happened(names, ra, AllHappened(names, ra, e, evs[..|evs| - 1]), evs[|evs| - 1])
  }

  function Built(names: seq<string>, f: Fde): StackFrameEntry
    requires AllCited(f.events)
  {
    AllHappened(names, f.returnAddress, Started(names, f.address, f.size, f.returnAddress), f.events)
  }

  function BuiltAll(names: seq<string>, fs: seq<Fde>): (es: seq<StackFrameEntry>)
    requires forall i :: 0 <= i < |fs| ==> AllCited(fs[i].events)
    ensures |es| == |fs| && forall i :: 0 <= i < |fs| ==> es[i] == Built(names, fs[i])
  {
    seq(|fs|, i requires 0 <= i < |fs| => Built(names, fs[i]))
  }

  /** `DwarfCFIToModule`. */
  class DwarfCFIToModule {
    const names: seq<string>
    var entry: Option<StackFrameEntry>
    var returnAddress: nat
    var entries: seq<StackFrameEntry>

    constructor (registerNames: seq<string>)
      ensures names == registerNames && entry == None && entries == []
    {
      names := registerNames;
      entry := None;
      returnAddress := 0xffff_ffff;
      entries := [];
    }

    method Entry(address: U64, length: U64, ra: nat) returns (ok: bool)
      requires entry.None?
      modifies this`entry, this`returnAddress
      ensures ok && returnAddress == ra && entry == Some(Started(names, address, length, ra))
    {
      var e := StackFrameEntry(address, length, map[], map[]);
      returnAddress := ra;
      if ra < |names| {
        e := e.(initial := e.initial[RA := names[ra]]);
      }
      entry := Some(e);
      ok := true;
    }

    method Record(address: U64, reg: int, rule: string)
      requires entry.Some? && CFA_REGISTER <= reg
      modifies this`entry
      ensures entry == Some(Recorded(old(entry).value, address, RegisterName(names, returnAddress, reg), rule))
    {
      var name, e := RegisterName(names, returnAddress, reg), entry.value;
      if address == e.address {
        entry := Some(e.(initial := e.initial[name := rule]));
      } else {
        var m: RuleMap := map[];
        if address in e.changes {
          m := e.changes[address];
        }
        entry := Some(e.(changes := e.changes[address := m[name := rule]]));
      }
    }

    method SameValueRule(address: U64, reg: int) returns (ok: bool)
      requires entry.Some? && Event(address, reg, SameValue).Cited()
      modifies this`entry
      ensures ok && entry == Some(Happened(names, returnAddress, old(entry).value, Event(address, reg, SameValue)))
    {
      Record(address, reg, RegisterName(names, returnAddress, reg));
      ok := true;
    }

    method OffsetRule(address: U64, reg: int, base: int, offset: int) returns (ok: bool)
      requires entry.Some? && Event(address, reg, Offset(base, offset)).Cited()
      modifies this`entry
      ensures ok && entry == Some(Happened(names, returnAddress, old(entry).value, Event(address, reg, Offset(base, offset))))
    {
      Record(address, reg, RegisterName(names, returnAddress, base) + " " + PrintSigned(offset) + " + ^");
      ok := true;
    }

    method ValOffsetRule(address: U64, reg: int, base: int, offset: int) returns (ok: bool)
      requires entry.Some? && Event(address, reg, ValOffset(base, offset)).Cited()
      modifies this`entry
      ensures ok && entry == Some(Happened(names, returnAddress, old(entry).value, Event(address, reg, ValOffset(base, offset))))
    {
      Record(address, reg, RegisterName(names, returnAddress, base) + " " + PrintSigned(offset) + " +");
      ok := true;
    }

    method RegisterRule(address: U64, reg: int, base: int) returns (ok: bool)
      requires entry.Some? && Event(address, reg, Register(base)).Cited()
      modifies this`entry
      ensures ok && entry == Some(Happened(names, returnAddress, old(entry).value, Event(address, reg, Register(base))))
    {
      Record(address, reg, RegisterName(names, returnAddress, base));
      ok := true;
    }

    method End() returns (ok: bool)
      requires entry.Some?
      modifies this`entry, this`entries
      ensures ok && entry.None? && entries == old(entries) + [old(entry).value]
    {
      entries := entries + [entry.value];
      entry := None;
      ok := true;
    }

    /** One callback of the reader; the rules that are not supported are only
        reported. */
    method Handle(ev: Event) returns (ok: bool)
      requires entry.Some? && ev.Cited()
      modifies this`entry
      ensures ok && entry == Some(Happened(names, returnAddress, old(entry).value, ev))
    {
      match ev.rule
      case SameValue => ok := SameValueRule(ev.address, ev.reg);
      case Offset(base, offset) => ok := OffsetRule(ev.address, ev.reg, base, offset);
      case ValOffset(base, offset) => ok := ValOffsetRule(ev.address, ev.reg, base, offset);
      case Register(base) => ok := RegisterRule(ev.address, ev.reg, base);
      case _ => ok := true;
    }

    /** The callbacks for one frame description entry. */
    method Receive(f: Fde)
      requires entry.None? && AllCited(f.events)
      modifies this
      ensures entry.None? && entries == old(entries) + [Built(names, f)]
    {
      var ok := Entry(f.address, f.size, f.returnAddress);
      ghost var start := entry.value;
      for i := 0 to |f.events|
        invariant returnAddress == f.returnAddress && entries == old(entries)
        invariant entry == Some(AllHappened(names, f.returnAddress, start, f.events[..i]))
      {
        assert f.events[..i + 1][..i] == f.events[..i];
        ok := Handle(f.events[i]);
      }
      assert f.events[..|f.events|] == f.events;
      ok := End();
    }
  }

  // ----- What is in force: a reference

  /** A rule given for a name at an address. */
  datatype Given = Given(address: U64, name: string, rule: string)

  /** The rules given by `evs`, in order. */
  function GivenBy(names: seq<string>, ra: nat, evs: seq<Event>): seq<Given>
    requires AllCited(evs)
  {
    if evs == [] then []
    else
      var n := |evs| - 1;
      var before := GivenBy(names, ra, evs[..n]);
      match TextOf(names, ra, evs[n].reg, evs[n].rule)
      case None => before
      case Some(text) => before + [Given(evs[n].address, RegisterName(names, ra, evs[n].reg), text)]
  }

  /** All the rules given for an entry: the return address is at first in its
      register. */
  function AllGiven(names: seq<string>, f: Fde): seq<Given>
    requires AllCited(f.events)
  {
    (if f.returnAddress < |names| then [Given(f.address, RA, names[f.returnAddress])] else [])
    + GivenBy(names, f.returnAddress, f.events)
  }

  predicate Concerns(g: Given, name: string, c: int)
  {
    g.name == name && g.address <= c
  }

  /** Rule `i` is the last one given for `name` up to `c`: no other has a greater
      address, and none at the same address comes later. */
  ghost predicate InForce(gs: seq<Given>, name: string, c: int, i: nat)
    requires i < |gs|
  {
    && Concerns(gs[i], name, c)
    && forall j :: 0 <= j < |gs| && Concerns(gs[j], name, c) ==>
         gs[j].address < gs[i].address || (gs[j].address == gs[i].address && j <= i)
  }

  /** Some rule is in force exactly if one was given up to `c`, and only one is. */
  lemma {:induction false} SomeInForce(gs: seq<Given>, name: string, c: int) returns (i: nat)
    ensures (exists j :: 0 <= j < |gs| && Concerns(gs[j], name, c)) ==> i < |gs| && InForce(gs, name, c, i)
    ensures forall k :: 0 <= k < |gs| && InForce(gs, name, c, k) ==> k == i
    decreases |gs|
  {
    i := 0;
    if gs != [] {
      var n := |gs| - 1;
      var before := gs[..n];
      i := SomeInForce(before, name, c);
      var found := i < n && InForce(before, name, c, i);
      assert found || forall j :: 0 <= j < n ==> !Concerns(gs[j], name, c) by {
        assert forall j :: 0 <= j < n ==> before[j] == gs[j];
      }
      if Concerns(gs[n], name, c) && (!found || gs[i].address <= gs[n].address) {
        i := n;
      }
    }
  }

  // ----- The entry holds what was given

  /** The last rule given for `name` at exactly `x`. */
  ghost function LastAt(gs: seq<Given>, x: int, name: string): Option<string>
  {
    if gs == [] then None
    else
      var g := gs[|gs| - 1];
      if g.address == x && g.name == name then Some(g.rule) else LastAt(gs[..|gs| - 1], x, name)
  }

  /** What the entry holds for `name` at `x`. */
  ghost function HeldAt(e: StackFrameEntry, x: int, name: string): Option<string>
  {
    if x == e.address then (if name in e.initial then Some(e.initial[name]) else None)
    else if x in e.changes && name in e.changes[x] then Some(e.changes[x][name]) else None
  }

  ghost function Filing(e: StackFrameEntry, gs: seq<Given>): StackFrameEntry
  {
    if gs == [] then e
    else
      var g := gs[|gs| - 1];
      Recorded(Filing(e, gs[..|gs| - 1]), g.address, g.name, g.rule)
  }

  lemma FilingSnoc(e: StackFrameEntry, gs: seq<Given>, g: Given)
    ensures Filing(e, gs + [g]) == Recorded(Filing(e, gs), g.address, g.name, g.rule)
  {
    assert (gs + [g])[..|gs|] == gs;
  }

  lemma {:induction false} HappenedIsFiling(names: seq<string>, f: Fde, n: nat)
    requires AllCited(f.events) && n <= |f.events|
    ensures AllHappened(names, f.returnAddress, Started(names, f.address, f.size, f.returnAddress), f.events[..n]) ==
            Filing(Blank(f), AllGiven(names, f.(events := f.events[..n])))
  {
    var ra := f.returnAddress;
    if n == 0 {
      assert f.events[..0] == [];
      StartedIsFiling(names, f);
    } else {
      HappenedIsFiling(names, f, n - 1);
      assert f.events[..n][..n - 1] == f.events[..n - 1];
      var ev := f.events[n - 1];
      var text := TextOf(names, ra, ev.reg, ev.rule);
      if text.Some? {
        var before := AllGiven(names, f.(events := f.events[..n - 1]));
        var g := Given(ev.address, RegisterName(names, ra, ev.reg), text.value);
        assert AllGiven(names, f.(events := f.events[..n])) == before + [g];
        FilingSnoc(Blank(f), before, g);
      }
    }
  }

  ghost function Blank(f: Fde): StackFrameEntry
  {
    StackFrameEntry(f.address, f.size, map[], map[])
  }

  lemma StartedIsFiling(names: seq<string>, f: Fde)
    ensures Started(names, f.address, f.size, f.returnAddress) == Filing(Blank(f), AllGiven(names, f.(events := [])))
  {
    if f.returnAddress < |names| {
      var g := Given(f.address, RA, names[f.returnAddress]);
      assert AllGiven(names, f.(events := [])) == [g];
      assert Filing(Blank(f), [g][..0]) == Blank(f);
      assert Blank(f).initial[RA := names[f.returnAddress]] == map[RA := names[f.returnAddress]];
    }
  }

  /** The entry built holds, at every address, the last rules given there. */
  lemma {:induction false} FilingHolds(e: StackFrameEntry, gs: seq<Given>, x: int, name: string)
    requires e.initial == map[] && e.changes == map[]
    ensures Filing(e, gs).address == e.address && Filing(e, gs).size == e.size
    ensures HeldAt(Filing(e, gs), x, name) == LastAt(gs, x, name)
    decreases |gs|
  {
    if gs != [] {
      FilingHolds(e, gs[..|gs| - 1], x, name);
    }
  }

  lemma {:induction false} LastAtFound(gs: seq<Given>, x: int, name: string, i: nat)
    requires i < |gs| && gs[i].name == name && gs[i].address == x
    requires forall j :: i < j < |gs| ==> !(gs[j].name == name && gs[j].address == x)
    ensures LastAt(gs, x, name) == Some(gs[i].rule)
    decreases |gs|
  {
    if i < |gs| - 1 {
      LastAtFound(gs[..|gs| - 1], x, name, i);
    }
  }

  lemma {:induction false} LastAtNone(gs: seq<Given>, x: int, name: string)
    requires forall j :: 0 <= j < |gs| ==> !(gs[j].name == name && gs[j].address == x)
    ensures LastAt(gs, x, name) == None
    decreases |gs|
  {
    if gs != [] {
      LastAtNone(gs[..|gs| - 1], x, name);
    }
  }

  ghost predicate Holds(e: StackFrameEntry, gs: seq<Given>)
  {
    forall x: int, name {:trigger HeldAt(e, x, name)} :: HeldAt(e, x, name) == LastAt(gs, x, name)
  }

  /** An entry has no change at its own address: that is an initial rule. */
  lemma {:induction false} FilingNoClash(e: StackFrameEntry, gs: seq<Given>)
    requires e.changes == map[]
    ensures Filing(e, gs).address == e.address && e.address !in Filing(e, gs).changes
    decreases |gs|
  {
    if gs != [] {
      FilingNoClash(e, gs[..|gs| - 1]);
    }
  }

  /** The rule an entry puts in force is the last one given. */
  lemma {:induction false} RuleAtIsLast(e: StackFrameEntry, gs: seq<Given>, name: string, c: int, i: nat)
    requires Holds(e, gs) && e.address !in e.changes && e.address <= c
    requires i < |gs| && InForce(gs, name, c, i) && e.address <= gs[i].address
    ensures RuleAt(e, name, c) == Some(gs[i].rule)
    decreases c - e.address
  {
    assert HeldAt(e, c, name) == LastAt(gs, c, name);
    if gs[i].address == c {
      LastAtFound(gs, c, name, i);
      assert c == e.address ==> RuleAt(e, name, c) == RuleAt(e, name, c - 1);
    } else {
      LastAtNone(gs, c, name);
      RuleAtIsLast(e, gs, name, c - 1, i);
    }
  }

  lemma {:induction false} RuleAtNone(e: StackFrameEntry, gs: seq<Given>, name: string, c: int)
    requires Holds(e, gs) && e.address !in e.changes && e.address <= c
    requires forall j :: 0 <= j < |gs| ==> !Concerns(gs[j], name, c)
    ensures RuleAt(e, name, c) == None
    decreases c - e.address
  {
    assert HeldAt(e, c, name) == LastAt(gs, c, name);
    LastAtNone(gs, c, name);
    if e.address < c {
      RuleAtNone(e, gs, name, c - 1);
    } else {
      assert RuleAt(e, name, c) == RuleAt(e, name, c - 1);
    }
  }

  // ----- What can be printed

  /** A register name that can be the name and a word of a rule. */
  predicate Plain(name: string)
  {
    SafeName(name) && !IsName(name)
  }

  /** Every register has no name or a plain one. */
  ghost predicate PlainNames(names: seq<string>)
  {
    forall i :: 0 <= i < |names| ==> names[i] == "" || Plain(names[i])
  }

  lemma {:induction false} PrintIsPlain(n: int)
    ensures n >= 0 ==> Plain(UNNAMED + Print(n, 10))
    ensures Plain(PrintSigned(n))
  {
    var m := if n < 0 then -n else n;
    PrintIsWord(m, 10);
    PlainAppend(UNNAMED, Print(m, 10));
    PlainAppend("-", Print(m, 10));
  }

  lemma PlainAppend(s: string, t: string)
    requires Clean(s, UNSAFE) && Plain(t)
    ensures Plain(s + t)
  {
  }

  lemma NamesArePlain(names: seq<string>, ra: nat, reg: int)
    requires PlainNames(names) && CFA_REGISTER <= reg
    ensures Plain(RegisterName(names, ra, reg))
  {
    PrintIsPlain(reg);
  }

  lemma PlainWords(ws: seq<string>)
    requires ws != [] && forall i :: 0 <= i < |ws| ==> Plain(ws[i])
    ensures SafeRule(Join(ws))
  {
    JoinedIsSafe(ws);
  }

  lemma JoinOne(a: string)
    ensures Join([a]) == a
  {
  }

  lemma JoinMore(ws: seq<string>, w: string, r: string)
    requires ws != [] && Join(ws) == r
    ensures Join(ws + [w]) == r + " " + w
  {
    assert (ws + [w])[..|ws|] == ws;
  }

  /** The two forms of rule with an offset. */
  lemma OffsetIsSafe(w: string, d: string)
    requires Plain(w) && Plain(d)
    ensures SafeRule(w + " " + d + " +") && SafeRule(w + " " + d + " + ^")
  {
    JoinOne(w);
    JoinMore([w], d, w);
    JoinMore([w] + [d], "+", w + " " + d);
    JoinMore([w] + [d] + ["+"], "^", w + " " + d + " " + "+");
    PlainWords([w] + [d] + ["+"]);
    PlainWords([w] + [d] + ["+"] + ["^"]);
    Tail(w + " " + d, " ", "+", " ", "^");
    assert " " + "+" == " +" && " +" + " " + "^" == " + ^";
  }

  lemma Tail(s: string, a: string, b: string, c: string, d: string)
    ensures s + a + b == s + (a + b)
    ensures s + a + b + c + d == s + (a + b + c + d)
  {
  }

  lemma TextIsSafe(names: seq<string>, ra: nat, reg: int, rule: Rule)
    requires PlainNames(names) && CFA_REGISTER <= reg && rule.Cited()
    requires TextOf(names, ra, reg, rule).Some?
    ensures SafeRule(TextOf(names, ra, reg, rule).value)
  {
    var r := if rule.SameValue? then reg else rule.base;
    NamesArePlain(names, ra, r);
    var w := RegisterName(names, ra, r);
    if rule.Offset? || rule.ValOffset? {
      PrintIsPlain(rule.offset);
      OffsetIsSafe(w, PrintSigned(rule.offset));
    } else {
      JoinOne(w);
      PlainWords([w]);
    }
  }

  ghost predicate SafeGiven(g: Given)
  {
    SafeName(g.name) && SafeRule(g.rule)
  }

  lemma {:induction false} GivenIsSafe(names: seq<string>, ra: nat, evs: seq<Event>)
    requires PlainNames(names) && AllCited(evs)
    ensures forall i :: 0 <= i < |GivenBy(names, ra, evs)| ==> SafeGiven(GivenBy(names, ra, evs)[i])
    decreases |evs|
  {
    if evs != [] {
      var n := |evs| - 1;
      GivenIsSafe(names, ra, evs[..n]);
      NamesArePlain(names, ra, evs[n].reg);
      if TextOf(names, ra, evs[n].reg, evs[n].rule).Some? {
        TextIsSafe(names, ra, evs[n].reg, evs[n].rule);
      }
    }
  }

  /** A given rule can be printed, or is the empty one that an entry starts with if
      the register of the return address has an empty name. */
  ghost predicate FineGiven(g: Given, start: U64)
  {
    SafeGiven(g) || (g.address == start && g.name == RA && g.rule == "")
  }

  lemma AllGivenIsFine(names: seq<string>, f: Fde)
    requires PlainNames(names) && AllCited(f.events)
    ensures forall i :: 0 <= i < |AllGiven(names, f)| ==> FineGiven(AllGiven(names, f)[i], f.address)
  {
    GivenIsSafe(names, f.returnAddress, f.events);
    if f.returnAddress < |names| && names[f.returnAddress] != "" {
      var w := names[f.returnAddress];
      JoinOne(w);
      PlainWords([w]);
      assert SafeName(RA);
    }
  }

  lemma {:induction false} LastAtIsGiven(gs: seq<Given>, x: int, name: string) returns (i: nat)
    requires LastAt(gs, x, name).Some?
    ensures i < |gs| && gs[i].address == x && gs[i].name == name && gs[i].rule == LastAt(gs, x, name).value
    decreases |gs|
  {
    var n := |gs| - 1;
    if gs[n].address == x && gs[n].name == name {
      i := n;
    } else {
      i := LastAtIsGiven(gs[..n], x, name);
    }
  }

  lemma {:induction false} ChangesNotEmpty(e: StackFrameEntry, gs: seq<Given>)
    requires e.changes == map[]
    ensures forall x :: x in Filing(e, gs).changes ==> Filing(e, gs).changes[x] != map[]
    decreases |gs|
  {
    if gs != [] {
      var n := |gs| - 1;
      ChangesNotEmpty(e, gs[..n]);
      var before := Filing(e, gs[..n]);
      var m := if gs[n].address in before.changes then before.changes[gs[n].address] else map[];
      assert gs[n].name in m[gs[n].name := gs[n].rule];
    }
  }

  /** The return address does not end up with an empty rule at the start. */
  ghost predicate ReturnUsable(gs: seq<Given>, start: U64)
  {
    LastAt(gs, start, RA) != Some("")
  }

  /** What an entry holds is what was given, and can be printed but for an empty rule
      for the return address at the start. */
  lemma HeldIsFine(e: StackFrameEntry, gs: seq<Given>, x: int, name: string)
    requires Holds(e, gs) && HeldAt(e, x, name).Some? && forall k :: 0 <= k < |gs| ==> FineGiven(gs[k], e.address)
    ensures SafeName(name)
    ensures SafeRule(HeldAt(e, x, name).value) || (x == e.address && name == RA && HeldAt(e, x, name).value == "")
  {
    assert HeldAt(e, x, name) == LastAt(gs, x, name);
    var i := LastAtIsGiven(gs, x, name);
    assert FineGiven(gs[i], e.address) && SafeName(RA);
  }

  /** An entry that holds what was given can be printed. */
  lemma FiledIsLoadable(e: StackFrameEntry, gs: seq<Given>)
    requires Holds(e, gs) && e.address !in e.changes
    requires forall x :: x in e.changes ==> e.changes[x] != map[]
    requires forall k :: 0 <= k < |gs| ==> FineGiven(gs[k], e.address)
    ensures Loadable(e) && forall x :: x in e.changes ==> SafeMap(e.changes[x])
  {
    forall name | name in e.initial
      ensures SafeName(name) && (e.initial[name] == "" || SafeRule(e.initial[name]))
    {
      HeldIsFine(e, gs, e.address, name);
    }
    forall x, name | x in e.changes && name in e.changes[x]
      ensures SafeName(name) && SafeRule(e.changes[x][name])
    {
      HeldIsFine(e, gs, x, name);
    }
    assert forall x :: x in e.changes ==> SafeMap(e.changes[x]);
  }

  /** None of its initial rules is empty exactly if the return address does not end up
      with an empty rule. */
  lemma InitialUsable(e: StackFrameEntry, gs: seq<Given>)
    requires Holds(e, gs) && forall k :: 0 <= k < |gs| ==> FineGiven(gs[k], e.address)
    ensures (forall name :: name in e.initial ==> e.initial[name] != "") <==> ReturnUsable(gs, e.address)
  {
    forall name | name in e.initial
      ensures e.initial[name] == "" ==> name == RA
    {
      HeldIsFine(e, gs, e.address, name);
      SafeIsNotEmpty(e.initial[name]);
    }
    assert HeldAt(e, e.address, RA) == LastAt(gs, e.address, RA);
  }

  lemma SafeIsNotEmpty(rule: string)
    ensures SafeRule(rule) ==> rule != ""
  {
    if SafeRule(rule) {
      SafeRuleWords(rule);
    }
  }

  /** Some rule is given at the start. */
  ghost predicate GivesStart(gs: seq<Given>, start: U64)
  {
    exists i :: 0 <= i < |gs| && gs[i].address == start
  }

  lemma StartIsHeld(e: StackFrameEntry, gs: seq<Given>)
    requires Holds(e, gs) && (GivesStart(gs, e.address) ==> e.initial != map[])
    ensures GivesStart(gs, e.address) <==> e.initial != map[]
  {
    if e.initial != map[] {
      var name :| name in e.initial;
      assert HeldAt(e, e.address, name) == LastAt(gs, e.address, name);
      var i := LastAtIsGiven(gs, e.address, name);
    }
  }

  // ----- End to end

  /** A frame description entry with events inside its extent. */
  ghost predicate Proper(f: Fde)
  {
    && AllCited(f.events)
    && 0 < f.size && f.address + f.size <= TWO_64
    && (forall i :: 0 <= i < |f.events| ==> f.address <= f.events[i].address < f.address + f.size)
  }

  ghost predicate Disjoint(fs: seq<Fde>)
  {
    forall i, j :: 0 <= i < j < |fs| ==> fs[i].address + fs[i].size <= fs[j].address || fs[j].address + fs[j].size <= fs[i].address
  }

  lemma {:induction false} GivenWithin(names: seq<string>, ra: nat, evs: seq<Event>, lo: int, hi: int)
    requires AllCited(evs) && forall i :: 0 <= i < |evs| ==> lo <= evs[i].address < hi
    ensures forall i :: 0 <= i < |GivenBy(names, ra, evs)| ==> lo <= GivenBy(names, ra, evs)[i].address < hi
    decreases |evs|
  {
    if evs != [] {
      GivenWithin(names, ra, evs[..|evs| - 1], lo, hi);
    }
  }

  lemma {:induction false} ChangesWereGiven(e: StackFrameEntry, gs: seq<Given>, lo: int, hi: int)
    requires e.changes == map[] && forall i :: 0 <= i < |gs| ==> lo <= gs[i].address < hi
    ensures forall c :: c in Filing(e, gs).changes ==> lo <= c < hi
    decreases |gs|
  {
    if gs != [] {
      ChangesWereGiven(e, gs[..|gs| - 1], lo, hi);
    }
  }

  /** The entry built of a proper description is well placed, can be printed, and
      holds exactly what was given. */
  lemma BuiltIsProper(names: seq<string>, f: Fde)
    requires PlainNames(names) && Proper(f)
    ensures Built(names, f).address == f.address && Built(names, f).size == f.size
    ensures PlacedEntry(Built(names, f)) && Loadable(Built(names, f))
    ensures Holds(Built(names, f), AllGiven(names, f)) && f.address !in Built(names, f).changes
    ensures forall i :: 0 <= i < |AllGiven(names, f)| ==> f.address <= AllGiven(names, f)[i].address
  {
    var gs, b := AllGiven(names, f), Blank(f);
    BuiltIsFiling(names, f);
    FilingNoClash(b, gs);
    GivenWithin(names, f.returnAddress, f.events, f.address, f.address + f.size);
    ChangesWereGiven(b, gs, f.address, f.address + f.size);
    AllGivenIsFine(names, f);
    FilingIsHeld(b, gs);
    ChangesNotEmpty(b, gs);
    FiledIsLoadable(Filing(b, gs), gs);
  }

  lemma BuiltIsFiling(names: seq<string>, f: Fde)
    requires AllCited(f.events)
    ensures Built(names, f) == Filing(Blank(f), AllGiven(names, f))
  {
    assert f.events[..|f.events|] == f.events && f.(events := f.events) == f;
    HappenedIsFiling(names, f, |f.events|);
  }

  /** Its initial rules are there exactly if some rule is given at the start; and they
      can be used exactly if the return address does not end up with an empty one. */
  lemma BuiltIsUsable(names: seq<string>, f: Fde)
    requires PlainNames(names) && AllCited(f.events)
    ensures Built(names, f).initial != map[] <==> GivesStart(AllGiven(names, f), f.address)
    ensures (forall name :: name in Built(names, f).initial ==> Built(names, f).initial[name] != "") <==>
            ReturnUsable(AllGiven(names, f), f.address)
    ensures GivesStart(AllGiven(names, f), f.address) && ReturnUsable(AllGiven(names, f), f.address) ==>
              SafeEntry(SafeMap, Built(names, f))
  {
    var gs, b := AllGiven(names, f), Blank(f);
    var e := Filing(b, gs);
    BuiltIsFiling(names, f);
    AllGivenIsFine(names, f);
    FilingIsHeld(b, gs);
    FilingNoClash(b, gs);
    ChangesNotEmpty(b, gs);
    if i :| 0 <= i < |gs| && gs[i].address == f.address {
      GivenAtStart(b, gs, i);
    }
    StartIsHeld(e, gs);
    InitialUsable(e, gs);
    FiledIsLoadable(e, gs);
  }

  lemma FilingIsHeld(b: StackFrameEntry, gs: seq<Given>)
    requires b.initial == map[] && b.changes == map[]
    ensures Filing(b, gs).size == b.size && Holds(Filing(b, gs), gs)
  {
    forall x: int, name: string
      ensures Filing(b, gs).size == b.size && HeldAt(Filing(b, gs), x, name) == LastAt(gs, x, name)
    {
      FilingHolds(b, gs, x, name);
    }
    FilingHolds(b, gs, 0, "");
  }

  lemma {:induction false} GivenAtStart(e: StackFrameEntry, gs: seq<Given>, i: nat)
    requires i < |gs| && gs[i].address == e.address
    ensures Filing(e, gs).address == e.address && Filing(e, gs).initial != map[]
    decreases |gs|
  {
    var n := |gs| - 1;
    if i < n {
      GivenAtStart(e, gs[..n], i);
    } else {
      FilingAddress(e, gs[..n]);
      assert gs[n].name in Filing(e, gs).initial;
    }
  }

  lemma {:induction false} FilingAddress(e: StackFrameEntry, gs: seq<Given>)
    ensures Filing(e, gs).address == e.address
    decreases |gs|
  {
    if gs != [] {
      FilingAddress(e, gs[..|gs| - 1]);
    }
  }

  /** The initial rules of an entry that has some are accepted exactly if the return
      address does not end up with an empty rule. It does so if its register is within
      the table but has an empty name there, unless a rule for it is given at the
      start. */
  lemma InitialRulesExact(o: Orders, names: seq<string>, f: Fde, info: FrameInfo)
    requires Enumerates(o) && PlainNames(names) && AllCited(f.events) && GivesStart(AllGiven(names, f), f.address)
    ensures ParseInto(MapText(o, Built(names, f).initial), info).0 <==> ReturnUsable(AllGiven(names, f), f.address)
  {
    var gs, b := AllGiven(names, f), Blank(f);
    BuiltIsUsable(names, f);
    BuiltIsFiling(names, f);
    AllGivenIsFine(names, f);
    FilingIsHeld(b, gs);
    FilingNoClash(b, gs);
    ChangesNotEmpty(b, gs);
    FiledIsLoadable(Filing(b, gs), gs);
    MapTextAccepted(o, Built(names, f).initial, info);
  }

  /** The number of descriptions that give no rule at their start. */
  ghost function Unruled(names: seq<string>, fs: seq<Fde>): nat
    requires forall i :: 0 <= i < |fs| ==> AllCited(fs[i].events)
  {
    if fs == [] then 0
    else
      var n := |fs| - 1;
      Unruled(names, fs[..n]) + if GivesStart(AllGiven(names, fs[n]), fs[n].address) then 0 else 1
  }

  /** Disjoint descriptions above the load address, with plain register names. */
  ghost predicate Usable(names: seq<string>, load: U64, fs: seq<Fde>)
  {
    && PlainNames(names) && Disjoint(fs)
    && forall i :: 0 <= i < |fs| ==> Proper(fs[i]) && load <= fs[i].address
  }

  lemma {:induction false} UnruledIsBare(names: seq<string>, fs: seq<Fde>)
    requires PlainNames(names) && forall i :: 0 <= i < |fs| ==> AllCited(fs[i].events)
    ensures Bare(BuiltAll(names, fs)) == Unruled(names, fs)
    decreases |fs|
  {
    if fs != [] {
      var n := |fs| - 1;
      UnruledIsBare(names, fs[..n]);
      BuiltIsUsable(names, fs[n]);
      assert BuiltAll(names, fs)[..n] == BuiltAll(names, fs[..n]);
    }
  }

  lemma AllProper(names: seq<string>, load: U64, fs: seq<Fde>)
    requires Usable(names, load, fs)
    ensures Placed(BuiltAll(names, fs)) && AllLoadable(load, BuiltAll(names, fs))
  {
    var es := BuiltAll(names, fs);
    forall i | 0 <= i < |es|
      ensures PlacedEntry(es[i]) && Loadable(es[i]) && Above(load, es[i])
      ensures es[i].address == fs[i].address && es[i].size == fs[i].size
    {
      BuiltIsProper(names, fs[i]);
      assert forall c :: c in es[i].changes ==> CfiTables.Within(es[i], c);
    }
  }

  /** From the reported events through entries, text, tables and lookup: at an address
      of a frame description entry something is found exactly if some rule is given at
      the start of that entry, the return address does not end up with an empty rule
      there, and not so many entries before it lack a rule at their start that the
      resolver has given up. Then the rule found for a name is the last one given for
      it up to that address, and there is none if none was given. */
  lemma TextsFound(o: Orders, load: U64, names: seq<string>, fs: seq<Fde>, c: U64, k: nat, name: string, i: nat)
    requires Enumerates(o) && Usable(names, load, fs) && load <= c
    requires k < |fs| && fs[k].address <= c < fs[k].address + fs[k].size
    ensures var gs := AllGiven(names, fs[k]);
            var t, a := ReadBack(o, load, BuiltAll(names, fs)), Sub64(c, load);
            && (forall n :: 0 <= n < k ==> AllCited(fs[..k][n].events))
            && (Find(ParseInto, t, a).Some? <==>
                  GivesStart(gs, fs[k].address) && ReturnUsable(gs, fs[k].address) && Unruled(names, fs[..k]) <= MAX_ERRORS)
            && (Find(ParseInto, t, a).Some? && i < |gs| && InForce(gs, name, c, i) ==>
                  Finds(ParseInto, t, a, name, Some(gs[i].rule)))
            && (Find(ParseInto, t, a).Some? && (forall j :: 0 <= j < |gs| ==> !Concerns(gs[j], name, c)) ==>
                  Finds(ParseInto, t, a, name, None))
  {
    AllProper(names, load, fs);
    assert forall n :: 0 <= n < k ==> fs[..k][n] == fs[n] && Proper(fs[n]);
    UnruledIsBare(names, fs[..k]);
    assert BuiltAll(names, fs)[..k] == BuiltAll(names, fs[..k]);
    BuiltIsProper(names, fs[k]);
    BuiltIsUsable(names, fs[k]);
    EntryFound(o, load, BuiltAll(names, fs), c, k, AllGiven(names, fs[k]), name, i);
  }

  /** The same from an entry that holds the rules given for it. */
  lemma EntryFound(
      o: Orders, load: U64, es: seq<StackFrameEntry>, c: U64, k: nat, gs: seq<Given>, name: string, i: nat)
    requires Enumerates(o) && Placed(es) && AllLoadable(load, es) && load <= c && k < |es| && CfiTables.Within(es[k], c)
    requires Holds(es[k], gs) && es[k].address !in es[k].changes && forall j :: 0 <= j < |gs| ==> es[k].address <= gs[j].address
    requires es[k].initial != map[] <==> GivesStart(gs, es[k].address)
    requires (forall n :: n in es[k].initial ==> es[k].initial[n] != "") <==> ReturnUsable(gs, es[k].address)
    requires GivesStart(gs, es[k].address) && ReturnUsable(gs, es[k].address) ==> SafeEntry(SafeMap, es[k])
    ensures var t, a := ReadBack(o, load, es), Sub64(c, load);
            && (Find(ParseInto, t, a).Some? <==>
                  GivesStart(gs, es[k].address) && ReturnUsable(gs, es[k].address) && Bare(es[..k]) <= MAX_ERRORS)
            && (Find(ParseInto, t, a).Some? && i < |gs| && InForce(gs, name, c, i) ==> Finds(ParseInto, t, a, name, Some(gs[i].rule)))
            && (Find(ParseInto, t, a).Some? && (forall j :: 0 <= j < |gs| ==> !Concerns(gs[j], name, c)) ==> Finds(ParseInto, t, a, name, None))
  {
    TextFoundExact(o, load, es, c, k);
    if GivesStart(gs, es[k].address) && ReturnUsable(gs, es[k].address) && Bare(es[..k]) <= MAX_ERRORS {
      TextFinds(o, load, es, c, k, name);
      LastRule(es[k], gs, name, c, i);
    }
  }

  lemma LastRule(e: StackFrameEntry, gs: seq<Given>, name: string, c: int, i: nat)
    requires Holds(e, gs) && e.address !in e.changes && e.address <= c
    requires forall k :: 0 <= k < |gs| ==> e.address <= gs[k].address
    ensures i < |gs| && InForce(gs, name, c, i) ==> RuleAt(e, name, c) == Some(gs[i].rule)
    ensures (forall j :: 0 <= j < |gs| ==> !Concerns(gs[j], name, c)) ==> RuleAt(e, name, c) == None
  {
    if i < |gs| && InForce(gs, name, c, i) {
      RuleAtIsLast(e, gs, name, c, i);
    }
    if forall j :: 0 <= j < |gs| ==> !Concerns(gs[j], name, c) {
      RuleAtNone(e, gs, name, c);
    }
  }

  /** At an address of no frame description entry nothing is found. */
  lemma NothingFoundOutside(o: Orders, load: U64, names: seq<string>, fs: seq<Fde>, c: U64)
    requires Enumerates(o) && Usable(names, load, fs) && load <= c
    requires forall k :: 0 <= k < |fs| ==> !(fs[k].address <= c < fs[k].address + fs[k].size)
    ensures Find(ParseInto, ReadBack(o, load, BuiltAll(names, fs)), Sub64(c, load)).None?
  {
    AllProper(names, load, fs);
    forall k | 0 <= k < |fs|
      ensures !CfiTables.Within(BuiltAll(names, fs)[k], c)
    {
      BuiltIsProper(names, fs[k]);
    }
    TextFindsNone(o, load, BuiltAll(names, fs), c);
  }

  // ----- Where the lookup fails

  /** The return address in register 0, which has an empty name, and no rules. */
  const UNNAMED_RETURN: Fde := Fde(0x1000, 0x10, 0, [])

  /** One such description is read without an error, and nothing is found in it. */
  lemma UnnamedReturnLost(o: Orders, c: U64)
    requires Enumerates(o) && 0x1000 <= c < 0x1010
    ensures Load(ReadLine, AllLines(o, 0, BuiltAll([""], [UNNAMED_RETURN]))).1 == 0
    ensures Find(ParseInto, ReadBack(o, 0, BuiltAll([""], [UNNAMED_RETURN])), c).None?
  {
    var f, fs := UNNAMED_RETURN, [UNNAMED_RETURN];
    var gs := AllGiven([""], f);
    assert gs == [Given(0x1000, RA, "")] && gs[..0] == [];
    assert gs[0].address == f.address;
    assert LastAt(gs, 0x1000, RA) == Some("");
    assert fs[..0] == [];
    assert Usable([""], 0, fs);
    TextsFound(o, 0, [""], fs, c, 0, RA, 0);
    AllProper([""], 0, fs);
    UnruledIsBare([""], fs);
    LoadAllLines(o, 0, BuiltAll([""], fs));
  }

  /** Without names there is no rule for the return address; without events there is
      no rule at all. The record is refused, and nothing is found. */
  lemma UnruledLost(o: Orders, c: U64)
    requires Enumerates(o) && 0x1000 <= c < 0x1010
    ensures Load(ReadLine, AllLines(o, 0, BuiltAll([], [UNNAMED_RETURN]))).1 == 1
    ensures Find(ParseInto, ReadBack(o, 0, BuiltAll([], [UNNAMED_RETURN])), c).None?
  {
    var f, fs := UNNAMED_RETURN, [UNNAMED_RETURN];
    assert AllGiven([], f) == [];
    assert fs[..0] == [];
    assert Unruled([], fs) == 1;
    assert Usable([], 0, fs);
    TextsFound(o, 0, [], fs, c, 0, RA, 0);
    AllProper([], 0, fs);
    UnruledIsBare([], fs);
    LoadAllLines(o, 0, BuiltAll([], fs));
  }
}
