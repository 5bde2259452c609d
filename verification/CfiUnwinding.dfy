/** Unwinding by call frame information, end to end: from the events reported for
    registers, through the symbol file, to the registers of the caller.
 */
module CfiUnwinding {
  import opened Machine
  import opened Texts
  import opened CfiRules
  import opened CfiRecords
  import opened CfiTables
  import opened CfiMeaning
  import opened CfiDwarf
  import opened PostfixEvaluators
  import opened CfiCallers

  // ----- Registers by their numbers

  /** No two registers share a name, and none has a name made up for another. */
  ghost predicate Distinguished(names: seq<string>)
  {
    && (forall i, j :: 0 <= i < j < |names| && names[i] == names[j] ==> names[i] == "")
    && (forall i :: 0 <= i < |names| ==> names[i] != CFA && names[i] != RA && !(UNNAMED <= names[i]))
  }

  lemma PrintsApart(m: nat, n: nat)
    requires Print(m, 10) == Print(n, 10)
    ensures m == n
  {
    DecimalReads(m);
    DecimalReads(n);
  }

  lemma MadeUp(m: nat, s: string)
    requires UNNAMED + Print(m, 10) == s
    ensures UNNAMED <= s && s != CFA && s != RA && s[|UNNAMED|..] == Print(m, 10)
  {
    assert s[0] == 'u';
  }

  predicate Named(names: seq<string>, reg: int)
  {
    0 <= reg < |names| && names[reg] != ""
  }

  /** A name tells the register. */
  lemma NamesApart(names: seq<string>, ra: nat, r: int, s: int)
    requires Distinguished(names) && CFA_REGISTER <= r && CFA_REGISTER <= s
    requires RegisterName(names, ra, r) == RegisterName(names, ra, s)
    ensures r == s
  {
    var w := RegisterName(names, ra, r);
    if r >= 0 && r != ra && !Named(names, r) {
      MadeUp(r, w);
    }
    if s >= 0 && s != ra && !Named(names, s) {
      MadeUp(s, w);
    }
    if r >= 0 && s >= 0 && r != ra && s != ra && !Named(names, r) && !Named(names, s) {
      PrintsApart(r, s);
    }
    assert CFA != RA;
  }

  /** What the names are: fixed ones for the canonical frame address and the return
      address, that at the register's own place in the table, or else one that ends in
      the register's number. */
  lemma NameIs(names: seq<string>, ra: nat, reg: int)
    requires CFA_REGISTER <= reg
    ensures var w := RegisterName(names, ra, reg);
            if reg == -1 then w == ".cfa"
            else if reg == ra then w == ".ra"
            else if Named(names, reg) then w == names[reg]
            else "unnamed_register" <= w && Decimal(w[16..]) && DecimalValue(w[16..]) == reg
  {
    var w := RegisterName(names, ra, reg);
    if reg >= 0 && reg != ra && !Named(names, reg) {
      assert w[16..] == Print(reg, 10);
      DecimalReads(reg);
    }
  }

  // ----- Events by their places

  /** The event gives register `reg` a rule at or before `c`. */
  predicate Told(ev: CfiDwarf.Event, reg: int, c: int)
  {
    ev.reg == reg && ev.address <= c && Supported(ev.rule)
  }

  /** Event `i` is the last that does: none has a greater address, and none at the same
      address comes later. */
  ghost predicate LastTold(evs: seq<CfiDwarf.Event>, reg: int, c: int, i: nat)
  {
    && i < |evs| && Told(evs[i], reg, c)
    && forall j :: 0 <= j < |evs| && Told(evs[j], reg, c) ==>
         evs[j].address < evs[i].address || (evs[j].address == evs[i].address && j <= i)
  }

  ghost predicate NoneTold(evs: seq<CfiDwarf.Event>, reg: int, c: int)
  {
    forall j :: 0 <= j < |evs| ==> !Told(evs[j], reg, c)
  }

  /** One of them is the last unless there is none. */
  lemma {:induction false} SomeLast(evs: seq<CfiDwarf.Event>, reg: int, c: int) returns (i: nat)
    ensures NoneTold(evs, reg, c) || LastTold(evs, reg, c, i)
    decreases |evs|
  {
    i := 0;
    if evs != [] {
      var n := |evs| - 1;
      var before := evs[..n];
      i := SomeLast(before, reg, c);
      assert forall j :: 0 <= j < n ==> before[j] == evs[j];
      if Told(evs[n], reg, c) && (NoneTold(before, reg, c) || evs[i].address <= evs[n].address) {
        i := n;
      }
    }
  }

  function GivenOf(names: seq<string>, ra: nat, ev: CfiDwarf.Event): Given
    requires ev.Cited() && Supported(ev.rule)
  {
    TextIsPostfix(names, ra, ev.reg, ev.rule);
    Given(ev.address, RegisterName(names, ra, ev.reg), TextOf(names, ra, ev.reg, ev.rule).value)
  }

  /** How many rules the events before `i` give. */
  function Place(names: seq<string>, ra: nat, evs: seq<CfiDwarf.Event>, i: nat): nat
    requires AllCited(evs) && i <= |evs|
  {
    |GivenBy(names, ra, evs[..i])|
  }

  lemma PlaceStep(names: seq<string>, ra: nat, evs: seq<CfiDwarf.Event>, i: nat)
    requires AllCited(evs) && i < |evs|
    ensures Place(names, ra, evs, i + 1) == Place(names, ra, evs, i) + if Supported(evs[i].rule) then 1 else 0
    ensures GivenBy(names, ra, evs[..i + 1]) ==
            GivenBy(names, ra, evs[..i]) + if Supported(evs[i].rule) then [GivenOf(names, ra, evs[i])] else []
  {
    assert evs[..i + 1][..i] == evs[..i];
    TextIsPostfix(names, ra, evs[i].reg, evs[i].rule);
  }

  lemma {:induction false} PlaceGrows(names: seq<string>, ra: nat, evs: seq<CfiDwarf.Event>, i: nat, j: nat)
    requires AllCited(evs) && i <= j <= |evs|
    ensures GivenBy(names, ra, evs[..i]) <= GivenBy(names, ra, evs[..j])
    decreases j
  {
    if i < j {
      PlaceGrows(names, ra, evs, i, j - 1);
      PlaceStep(names, ra, evs, j - 1);
    }
  }

  /** A supported event has its rule at its place. */
  lemma GivenAt(names: seq<string>, ra: nat, evs: seq<CfiDwarf.Event>, i: nat)
    requires AllCited(evs) && i < |evs| && Supported(evs[i].rule)
    ensures var gs, p := GivenBy(names, ra, evs), Place(names, ra, evs, i);
            p < |gs| && gs[p] == GivenOf(names, ra, evs[i])
  {
    PlaceStep(names, ra, evs, i);
    PlaceGrows(names, ra, evs, i + 1, |evs|);
    assert evs[..|evs|] == evs;
  }

  /** Every rule is at the place of a supported event. */
  lemma {:induction false} GivenFrom(names: seq<string>, ra: nat, evs: seq<CfiDwarf.Event>, n: nat, p: nat) returns (i: nat)
    requires AllCited(evs) && n <= |evs| && p < Place(names, ra, evs, n)
    ensures i < n && Supported(evs[i].rule) && p == Place(names, ra, evs, i)
    decreases n
  {
    assert evs[..0] == [];
    PlaceStep(names, ra, evs, n - 1);
    if p < Place(names, ra, evs, n - 1) {
      i := GivenFrom(names, ra, evs, n - 1, p);
    } else {
      i := n - 1;
    }
  }

  /** The rules of an entry: at first perhaps one for the return address. */
  function Shift(names: seq<string>, f: Fde): nat
  {
    if f.returnAddress < |names| then 1 else 0
  }

  lemma AllGivenAt(names: seq<string>, f: Fde, i: nat)
    requires AllCited(f.events) && i < |f.events| && Supported(f.events[i].rule)
    ensures var gs, p := AllGiven(names, f), Shift(names, f) + Place(names, f.returnAddress, f.events, i);
            p < |gs| && gs[p] == GivenOf(names, f.returnAddress, f.events[i])
  {
    GivenAt(names, f.returnAddress, f.events, i);
  }

  lemma AllGivenFrom(names: seq<string>, f: Fde, p: nat) returns (i: nat)
    requires AllCited(f.events) && Shift(names, f) <= p < |AllGiven(names, f)|
    ensures i < |f.events| && Supported(f.events[i].rule)
    ensures p == Shift(names, f) + Place(names, f.returnAddress, f.events, i)
    ensures AllGiven(names, f)[p] == GivenOf(names, f.returnAddress, f.events[i])
  {
    assert f.events[..|f.events|] == f.events;
    i := GivenFrom(names, f.returnAddress, f.events, |f.events|, p - Shift(names, f));
    AllGivenAt(names, f, i);
  }

  // ----- The rule in force for a register

  lemma PlacesOrdered(names: seq<string>, ra: nat, evs: seq<CfiDwarf.Event>, i: nat, j: nat)
    requires AllCited(evs) && j <= i < |evs|
    ensures Place(names, ra, evs, j) <= Place(names, ra, evs, i)
  {
    PlaceGrows(names, ra, evs, j, i);
  }

  /** The last event for a register puts its rule in force for the register's name. */
  lemma LastIsInForce(names: seq<string>, f: Fde, reg: int, c: int, i: nat)
    requires Distinguished(names) && Proper(f) && CFA_REGISTER <= reg && LastTold(f.events, reg, c, i)
    ensures var gs, p := AllGiven(names, f), Shift(names, f) + Place(names, f.returnAddress, f.events, i);
            && p < |gs| && gs[p] == GivenOf(names, f.returnAddress, f.events[i])
            && InForce(gs, RegisterName(names, f.returnAddress, reg), c, p)
  {
    var ra, evs, gs := f.returnAddress, f.events, AllGiven(names, f);
    var name, p := RegisterName(names, ra, reg), Shift(names, f) + Place(names, ra, evs, i);
    AllGivenAt(names, f, i);
    forall q | 0 <= q < |gs| && Concerns(gs[q], name, c)
      ensures gs[q].address < gs[p].address || (gs[q].address == gs[p].address && q <= p)
    {
      if q >= Shift(names, f) {
        var j := AllGivenFrom(names, f, q);
        NamesApart(names, ra, evs[j].reg, reg);
        assert Told(evs[j], reg, c);
        if evs[j].address == evs[i].address {
          PlacesOrdered(names, ra, evs, i, j);
        }
      }
    }
  }

  /** Without an event only the return address may have a rule: the one it starts with. */
  lemma NoneIsInForce(names: seq<string>, f: Fde, reg: int, c: int)
    requires Distinguished(names) && Proper(f) && f.address <= c && CFA_REGISTER <= reg && NoneTold(f.events, reg, c)
    ensures var gs, name := AllGiven(names, f), RegisterName(names, f.returnAddress, reg);
            if reg == f.returnAddress && reg < |names|
            then gs != [] && gs[0].rule == names[reg] && InForce(gs, name, c, 0)
            else forall q :: 0 <= q < |gs| ==> !Concerns(gs[q], name, c)
  {
    var ra, evs, gs := f.returnAddress, f.events, AllGiven(names, f);
    var name := RegisterName(names, ra, reg);
    forall q | Shift(names, f) <= q < |gs|
      ensures !Concerns(gs[q], name, c)
    {
      var j := AllGivenFrom(names, f, q);
      if RegisterName(names, ra, evs[j].reg) == name {
        NamesApart(names, ra, evs[j].reg, reg);
      }
      assert !Told(evs[j], reg, c);
    }
    if Shift(names, f) == 1 && name == RA {
      assert RegisterName(names, ra, ra) == RA;
      NamesApart(names, ra, ra, reg);
    }
  }

  // ----- What is found

  /** The frame info says what the events do, register by register, and nothing else. */
  ghost predicate Says(info: FrameInfo, names: seq<string>, f: Fde, c: int)
    requires AllCited(f.events)
  {
    && (forall reg, i: nat :: CFA_REGISTER <= reg && LastTold(f.events, reg, c, i) ==>
          info.Rule(RegisterName(names, f.returnAddress, reg)) == TextOf(names, f.returnAddress, reg, f.events[i].rule))
    && (forall reg :: CFA_REGISTER <= reg && NoneTold(f.events, reg, c) ==>
          info.Rule(RegisterName(names, f.returnAddress, reg)) ==
          if reg == f.returnAddress && reg < |names| then Some(names[reg]) else None)
    && (forall n :: n in info.regs ==> FromEvent(names, f, c, n))
  }

  ghost predicate FromEvent(names: seq<string>, f: Fde, c: int, n: string)
  {
    exists reg, i: nat :: 0 <= reg && reg != f.returnAddress && LastTold(f.events, reg, c, i) && n == RegisterName(names, f.returnAddress, reg)
  }

  /** The frame info has, for every name, the last rule given. */
  ghost predicate Carries(info: FrameInfo, gs: seq<Given>, c: int)
  {
    && (forall name, i: nat :: i < |gs| && InForce(gs, name, c, i) ==> info.Rule(name) == Some(gs[i].rule))
    && (forall name :: (forall j :: 0 <= j < |gs| ==> !Concerns(gs[j], name, c)) ==> info.Rule(name) == None)
  }

  /** The pseudoregisters are kept apart from the registers. */
  predicate Apart(info: FrameInfo)
  {
    CFA !in info.regs && RA !in info.regs
  }

  lemma CarriesSays(info: FrameInfo, names: seq<string>, f: Fde, c: int)
    requires Distinguished(names) && Proper(f) && f.address <= c
    requires Carries(info, AllGiven(names, f), c) && Apart(info)
    ensures Says(info, names, f, c)
  {
    var ra, evs, gs := f.returnAddress, f.events, AllGiven(names, f);
    forall reg, i: nat | CFA_REGISTER <= reg && LastTold(evs, reg, c, i)
      ensures info.Rule(RegisterName(names, ra, reg)) == TextOf(names, ra, reg, evs[i].rule)
    {
      LastIsInForce(names, f, reg, c, i);
      TextIsPostfix(names, ra, reg, evs[i].rule);
    }
    forall reg | CFA_REGISTER <= reg && NoneTold(evs, reg, c)
      ensures info.Rule(RegisterName(names, ra, reg)) == if reg == ra && reg < |names| then Some(names[reg]) else None
    {
      NoneIsInForce(names, f, reg, c);
    }
    forall n | n in info.regs
      ensures FromEvent(names, f, c, n)
    {
      RuleFromEvent(info, names, f, c, n);
    }
  }

  lemma RuleFromEvent(info: FrameInfo, names: seq<string>, f: Fde, c: int, n: string)
    requires Proper(f) && Carries(info, AllGiven(names, f), c) && Apart(info) && n in info.regs
    ensures FromEvent(names, f, c, n)
  {
    var ra, evs, gs := f.returnAddress, f.events, AllGiven(names, f);
    assert info.Rule(n) == Some(info.regs[n]);
    var q :| 0 <= q < |gs| && Concerns(gs[q], n, c);
    var j := AllGivenFrom(names, f, q);
    var reg := evs[j].reg;
    assert Told(evs[j], reg, c);
    var i := SomeLast(evs, reg, c);
    assert LastTold(evs, reg, c, i);
  }

  // ----- From the tables

  lemma {:induction false} ParseKeepsApart(ts: seq<string>, name: string, expression: string, info: FrameInfo)
    requires Apart(info)
    ensures Apart(ParseTokens(ts, name, expression, info).1)
    decreases |ts|
  {
    if ts != [] {
      if !IsName(ts[0]) {
        ParseKeepsApart(ts[1..], name, Extend(expression, ts[0]), info);
      } else if |ts[0]| >= 2 {
        var r := if name != "" || expression != "" then Report(name, expression, info) else (true, info);
        ParseKeepsApart(ts[1..], ts[0][..|ts[0]| - 1], "", r.1);
      }
    }
  }

  lemma {:induction false} DeltasKeepApart(deltas: map<U64, string>, lo: int, a: int, info: FrameInfo)
    requires Apart(info)
    ensures Apart(ApplyDeltas(ParseInto, deltas, lo, a, info))
    decreases a - lo
  {
    if a >= lo {
      DeltasKeepApart(deltas, lo, a - 1, info);
      var before := ApplyDeltas(ParseInto, deltas, lo, a - 1, info);
      if a in deltas {
        ParseKeepsApart(Tokens(CString(deltas[a]), BREAKS), "", "", before);
      }
    }
  }

  lemma FoundIsApart(t: Tables, a: U64)
    ensures Find(ParseInto, t, a).Some? ==> Apart(Find(ParseInto, t, a).value)
  {
    if Find(ParseInto, t, a).Some? {
      var it := RangeMaps.RetrieveRange(t.initial, a).value;
      ParseKeepsApart(Tokens(CString(it.value), BREAKS), "", "", EMPTY);
      DeltasKeepApart(t.deltas, it.base, a, ParseInto(it.value, EMPTY).1);
    }
  }

  // ----- When something is found

  /** Some rule is given at the start: the one for the return address, or by an event. */
  ghost predicate Starts(names: seq<string>, f: Fde)
  {
    f.returnAddress < |names| || exists i :: 0 <= i < |f.events| && Supported(f.events[i].rule) && f.events[i].address == f.address
  }

  /** The return address has no register with an empty name, or an event at the start
      gives it a rule. */
  ghost predicate Returns(names: seq<string>, f: Fde)
  {
    f.returnAddress < |names| && names[f.returnAddress] == "" ==>
      exists i :: 0 <= i < |f.events| && f.events[i].reg == f.returnAddress && Supported(f.events[i].rule) && f.events[i].address == f.address
  }

  lemma StartsExact(names: seq<string>, f: Fde)
    requires Proper(f)
    ensures GivesStart(AllGiven(names, f), f.address) <==> Starts(names, f)
  {
    var gs := AllGiven(names, f);
    if f.returnAddress < |names| {
      assert gs[0].address == f.address;
    } else {
      if q :| 0 <= q < |gs| && gs[q].address == f.address {
        var i := AllGivenFrom(names, f, q);
      }
      if i :| 0 <= i < |f.events| && Supported(f.events[i].rule) && f.events[i].address == f.address {
        AllGivenAt(names, f, i);
      }
    }
  }

  lemma TextIsNotEmpty(names: seq<string>, ra: nat, ev: CfiDwarf.Event)
    requires PlainNames(names) && ev.Cited() && Supported(ev.rule)
    ensures GivenOf(names, ra, ev).rule != ""
  {
    TextIsPostfix(names, ra, ev.reg, ev.rule);
    TextIsSafe(names, ra, ev.reg, ev.rule);
    SafeIsNotEmpty(TextOf(names, ra, ev.reg, ev.rule).value);
  }

  lemma ReturnsExact(names: seq<string>, f: Fde)
    requires Proper(f) && PlainNames(names) && Distinguished(names)
    ensures ReturnUsable(AllGiven(names, f), f.address) <==> Returns(names, f)
  {
    var ra, evs, gs := f.returnAddress, f.events, AllGiven(names, f);
    if LastAt(gs, f.address, RA).Some? {
      var q := LastAtIsGiven(gs, f.address, RA);
      if Shift(names, f) <= q {
        var j := AllGivenFrom(names, f, q);
        TextIsNotEmpty(names, ra, evs[j]);
        assert RegisterName(names, ra, ra) == RA;
        NamesApart(names, ra, evs[j].reg, ra);
      } else if i :| 0 <= i < |evs| && evs[i].reg == ra && Supported(evs[i].rule) && evs[i].address == f.address {
        ReturnRuled(names, f, i);
      }
    } else if ra < |names| {
      LastAtSome(gs, f.address, RA, 0);
    }
  }

  lemma {:induction false} LastAtSome(gs: seq<Given>, x: int, name: string, q: nat)
    requires q < |gs| && gs[q].address == x && gs[q].name == name
    ensures LastAt(gs, x, name).Some?
    decreases |gs|
  {
    if q < |gs| - 1 {
      LastAtSome(gs[..|gs| - 1], x, name, q);
    }
  }

  /** An event for the return address at the start replaces the rule it starts with. */
  lemma ReturnRuled(names: seq<string>, f: Fde, i: nat)
    requires Proper(f) && PlainNames(names) && Distinguished(names)
    requires i < |f.events| && f.events[i].reg == f.returnAddress && Supported(f.events[i].rule) && f.events[i].address == f.address
    ensures ReturnUsable(AllGiven(names, f), f.address)
  {
    var ra, evs, gs := f.returnAddress, f.events, AllGiven(names, f);
    var n := SomeLast(evs, ra, f.address);
    assert Told(evs[i], ra, f.address);
    LastIsInForce(names, f, ra, f.address, n);
    var p := Shift(names, f) + Place(names, ra, evs, n);
    forall q | p < q < |gs|
      ensures !(gs[q].name == RA && gs[q].address == f.address)
    {
      assert gs[q].name == RA && gs[q].address == f.address ==> Concerns(gs[q], RA, f.address);
    }
    LastAtFound(gs, f.address, RA, p);
    TextIsNotEmpty(names, ra, evs[n]);
  }

  /** How many descriptions before give no rule at their start. */
  ghost function Startless(names: seq<string>, fs: seq<Fde>): nat
  {
    if fs == [] then 0 else Startless(names, fs[..|fs| - 1]) + if Starts(names, fs[|fs| - 1]) then 0 else 1
  }

  lemma {:induction false} StartlessIsUnruled(names: seq<string>, fs: seq<Fde>)
    requires forall i :: 0 <= i < |fs| ==> Proper(fs[i]) && AllCited(fs[i].events)
    ensures Startless(names, fs) == Unruled(names, fs)
    decreases |fs|
  {
    if fs != [] {
      StartlessIsUnruled(names, fs[..|fs| - 1]);
      StartsExact(names, fs[|fs| - 1]);
    }
  }

  lemma FoundCarries(o: Orders, load: U64, names: seq<string>, fs: seq<Fde>, c: U64, k: nat)
    requires Enumerates(o) && Usable(names, load, fs) && load <= c
    requires k < |fs| && fs[k].address <= c < fs[k].address + fs[k].size
    ensures var r := Find(ParseInto, ReadBack(o, load, BuiltAll(names, fs)), Sub64(c, load));
            r.Some? ==> Carries(r.value, AllGiven(names, fs[k]), c)
  {
    var gs, r := AllGiven(names, fs[k]), Find(ParseInto, ReadBack(o, load, BuiltAll(names, fs)), Sub64(c, load));
    if r.Some? {
      forall name, i: nat | i < |gs| && InForce(gs, name, c, i)
        ensures r.value.Rule(name) == Some(gs[i].rule)
      {
        TextsFound(o, load, names, fs, c, k, name, i);
      }
      forall name | forall j :: 0 <= j < |gs| ==> !Concerns(gs[j], name, c)
        ensures r.value.Rule(name) == None
      {
        TextsFound(o, load, names, fs, c, k, name, 0);
      }
    }
  }

  /** Through the symbol file, by registers: at an address of a description something is
      found exactly if a rule is given at its start, the return address has one there
      that is not empty, and no more than the tolerated number of descriptions before it
      start without a rule. What is found says what the last events do. */
  lemma EventsFound(o: Orders, load: U64, names: seq<string>, fs: seq<Fde>, c: U64, k: nat)
    requires Enumerates(o) && Usable(names, load, fs) && Distinguished(names) && load <= c
    requires k < |fs| && fs[k].address <= c < fs[k].address + fs[k].size
    ensures var r := Find(ParseInto, ReadBack(o, load, BuiltAll(names, fs)), Sub64(c, load));
            && (r.Some? <==> Starts(names, fs[k]) && Returns(names, fs[k]) && Startless(names, fs[..k]) <= MAX_ERRORS)
            && (r.Some? ==> Says(r.value, names, fs[k], c))
  {
    var t, a := ReadBack(o, load, BuiltAll(names, fs)), Sub64(c, load);
    TextsFound(o, load, names, fs, c, k, "", 0);
    StartsExact(names, fs[k]);
    ReturnsExact(names, fs[k]);
    assert forall i :: 0 <= i < k ==> fs[..k][i] == fs[i] && Proper(fs[i]);
    StartlessIsUnruled(names, fs[..k]);
    if Find(ParseInto, t, a).Some? {
      FoundCarries(o, load, names, fs, c, k);
      FoundIsApart(t, a);
      CarriesSays(Find(ParseInto, t, a).value, names, fs[k], c);
    }
  }

  // ----- The registers of the caller

  /** The value that the events up to `c` give to a register of the caller; the return
      address is at first in its register. */
  ghost predicate Recovered(
      names: seq<string>, f: Fde, c: int, reg: int, d: Dictionary, memory: Memory, width: Width, v: nat)
    requires AllCited(f.events) && CFA_REGISTER <= reg
  {
    || (exists i: nat :: LastTold(f.events, reg, c, i) && RuleMeans(names, f.returnAddress, reg, f.events[i].rule, d, memory, width) == Some(v))
    || (NoneTold(f.events, reg, c) && reg == f.returnAddress && reg < |names| && names[reg] in d && d[names[reg]] == v)
  }

  /** Whether the events say anything of the register. */
  ghost predicate Ruled(names: seq<string>, f: Fde, c: int, reg: int)
  {
    !NoneTold(f.events, reg, c) || (reg == f.returnAddress && reg < |names|)
  }

  ghost predicate Evaluable(names: seq<string>, f: Fde, width: Width)
  {
    VariableNames(names, width) && forall i :: 0 <= i < |f.events| ==> OffsetFits(f.events[i].rule, width)
  }

  lemma LastTwice(evs: seq<CfiDwarf.Event>, reg: int, c: int, i: nat, j: nat)
    requires LastTold(evs, reg, c, i) && LastTold(evs, reg, c, j)
    ensures i == j
  {
  }

  lemma VariableMeans(w: string, d: Dictionary, memory: Memory, width: Width)
    requires IsVariable(w, width) && Bounded(d, Some(memory), width)
    ensures w in d ==> Evaluation(w, d, Some(memory), width) == Value(d[w])
    ensures w !in d ==> !Evaluation(w, d, Some(memory), width).Value?
  {
    JoinOne(w);
    ExpressionMeans(Variable(w), d, Some(memory), width);
  }

  /** The rule found for a register evaluates to just the value recovered. */
  lemma RuleYields(
      info: FrameInfo, names: seq<string>, f: Fde, c: int, reg: int, d: Dictionary, memory: Memory, width: Width, v: nat)
    requires Proper(f) && Says(info, names, f, c) && Evaluable(names, f, width) && CFA_REGISTER <= reg
    requires Bounded(d, Some(memory), width)
    ensures var rule := info.Rule(RegisterName(names, f.returnAddress, reg));
            && (rule.Some? <==> Ruled(names, f, c, reg))
            && (Recovered(names, f, c, reg, d, memory, width, v) <==>
                  rule.Some? && Evaluation(rule.value, d, Some(memory), width) == Value(v))
  {
    var ra, evs := f.returnAddress, f.events;
    var i := SomeLast(evs, reg, c);
    if NoneTold(evs, reg, c) {
      if reg == ra && reg < |names| {
        InitialUsed(info, names, f, c);
        VariableMeans(names[reg], d, memory, width);
      }
    } else {
      TextMeans(names, ra, reg, evs[i].rule, d, memory, width);
      forall j: nat | LastTold(evs, reg, c, j)
        ensures j == i
      {
        LastTwice(evs, reg, c, i, j);
      }
    }
  }

  lemma InitialUsed(info: FrameInfo, names: seq<string>, f: Fde, c: int)
    requires AllCited(f.events) && Says(info, names, f, c) && f.returnAddress < |names| && NoneTold(f.events, f.returnAddress, c)
    ensures names[f.returnAddress] != "" && info.Rule(RA) == Some(names[f.returnAddress])
  {
    assert RegisterName(names, f.returnAddress, f.returnAddress) == RA;
  }

  /** Every register with a rule, other than the return address, gets a value. */
  ghost predicate AllRecovered(names: seq<string>, f: Fde, c: int, d: Dictionary, memory: Memory, width: Width)
    requires AllCited(f.events)
  {
    forall reg :: 0 <= reg && reg != f.returnAddress && Ruled(names, f, c, reg) ==>
      exists v: nat :: Recovered(names, f, c, reg, d, memory, width, v)
  }

  lemma AllRecoveredExact(
      info: FrameInfo, names: seq<string>, f: Fde, c: int, d: Dictionary, memory: Memory, width: Width)
    requires Proper(f) && Distinguished(names) && Says(info, names, f, c) && Evaluable(names, f, width)
    requires Bounded(d, Some(memory), width)
    ensures AllRecovered(names, f, c, d, memory, width) <==> AllYield(info.regs, d, memory, width)
  {
    var ra := f.returnAddress;
    if AllRecovered(names, f, c, d, memory, width) {
      forall n | n in info.regs
        ensures Evaluation(info.regs[n], d, Some(memory), width).Value?
      {
        assert FromEvent(names, f, c, n);
        var reg, i: nat :| 0 <= reg && reg != ra && LastTold(f.events, reg, c, i) && n == RegisterName(names, ra, reg);
        assert Ruled(names, f, c, reg);
        var v: nat :| Recovered(names, f, c, reg, d, memory, width, v);
        RuleYields(info, names, f, c, reg, d, memory, width, v);
        NotPseudo(names, ra, reg);
      }
    }
    if AllYield(info.regs, d, memory, width) {
      forall reg | 0 <= reg && reg != ra && Ruled(names, f, c, reg)
        ensures exists v: nat :: Recovered(names, f, c, reg, d, memory, width, v)
      {
        var n := RegisterName(names, ra, reg);
        NotPseudo(names, ra, reg);
        RuleYields(info, names, f, c, reg, d, memory, width, 0);
        var v := Evaluation(info.regs[n], d, Some(memory), width).v;
        RuleYields(info, names, f, c, reg, d, memory, width, v);
      }
    }
  }

  /** The canonical frame address is `cfa`, the return address is `ra`, and every other
      register with a rule has a value. */
  ghost predicate Recoverable(
      names: seq<string>, f: Fde, c: int, registers: Dictionary, memory: Memory, width: Width, cfa: nat, ra: nat)
    requires AllCited(f.events)
  {
    && Recovered(names, f, c, CFA_REGISTER, registers, memory, width, cfa)
    && Recovered(names, f, c, f.returnAddress, registers[CFA := cfa], memory, width, ra)
    && AllRecovered(names, f, c, registers[CFA := cfa], memory, width)
  }

  lemma NotPseudo(names: seq<string>, ra: nat, reg: int)
    requires Distinguished(names) && 0 <= reg && reg != ra
    ensures RegisterName(names, ra, reg) != CFA && RegisterName(names, ra, reg) != RA
  {
    if RegisterName(names, ra, reg) == CFA {
      NamesApart(names, ra, reg, CFA_REGISTER);
    }
    if RegisterName(names, ra, reg) == RA {
      NamesApart(names, ra, reg, ra);
    }
  }

  /** The rules for the canonical frame address and the return address. */
  lemma PseudoYield(
      info: FrameInfo, names: seq<string>, f: Fde, c: int, registers: Dictionary, memory: Memory, width: Width, cfa: nat, ra: nat)
    requires Proper(f) && Says(info, names, f, c) && Evaluable(names, f, width) && Bounded(registers, Some(memory), width)
    ensures Recovered(names, f, c, CFA_REGISTER, registers, memory, width, cfa) <==>
            info.cfa != "" && Evaluation(info.cfa, registers, Some(memory), width) == Value(cfa)
    ensures Evaluation(info.cfa, registers, Some(memory), width) == Value(cfa) ==>
              && Bounded(registers[CFA := cfa], Some(memory), width)
              && (Recovered(names, f, c, f.returnAddress, registers[CFA := cfa], memory, width, ra) <==>
                    info.ra != "" && Evaluation(info.ra, registers[CFA := cfa], Some(memory), width) == Value(ra))
  {
    assert RegisterName(names, f.returnAddress, f.returnAddress) == RA;
    RuleYields(info, names, f, c, CFA_REGISTER, registers, memory, width, cfa);
    if Evaluation(info.cfa, registers, Some(memory), width) == Value(cfa) {
      ValueFits(info.cfa, registers, memory, width);
      RuleYields(info, names, f, c, f.returnAddress, registers[CFA := cfa], memory, width, ra);
    }
  }

  lemma RecoverableExact(
      info: FrameInfo, names: seq<string>, f: Fde, c: int, registers: Dictionary, memory: Memory, width: Width, cfa: nat, ra: nat)
    requires Proper(f) && Distinguished(names) && Says(info, names, f, c) && Evaluable(names, f, width)
    requires Bounded(registers, Some(memory), width)
    ensures Recoverable(names, f, c, registers, memory, width, cfa, ra) <==>
            && info.cfa != "" && info.ra != "" && Evaluation(info.cfa, registers, Some(memory), width) == Value(cfa)
            && Evaluation(info.ra, registers[CFA := cfa], Some(memory), width) == Value(ra)
            && AllYield(info.regs, registers[CFA := cfa], memory, width)
  {
    PseudoYield(info, names, f, c, registers, memory, width, cfa, ra);
    if Evaluation(info.cfa, registers, Some(memory), width) == Value(cfa) {
      AllRecoveredExact(info, names, f, c, registers[CFA := cfa], memory, width);
    }
  }

  /** The registers of the caller are found exactly if the canonical frame address, the
      return address and every register with a rule can be recovered. */
  lemma CallersExact(
      info: FrameInfo, names: seq<string>, f: Fde, c: int, registers: Dictionary, memory: Memory, width: Width)
    requires Proper(f) && Distinguished(names) && Says(info, names, f, c) && Evaluable(names, f, width)
    requires Bounded(registers, Some(memory), width)
    ensures Callers(info, registers, memory, width).Some? <==>
            exists cfa: nat, ra: nat :: Recoverable(names, f, c, registers, memory, width, cfa, ra)
  {
    if Callers(info, registers, memory, width).Some? {
      var cfa := Evaluation(info.cfa, registers, Some(memory), width).v;
      var ra := Evaluation(info.ra, registers[CFA := cfa], Some(memory), width).v;
      RecoverableExact(info, names, f, c, registers, memory, width, cfa, ra);
    }
    if cfa: nat, ra: nat :| Recoverable(names, f, c, registers, memory, width, cfa, ra) {
      RecoverableExact(info, names, f, c, registers, memory, width, cfa, ra);
    }
  }

  lemma ValueFits(expression: string, d: Dictionary, memory: Memory, width: Width)
    ensures var r := Evaluation(expression, d, Some(memory), width); r.Value? ==> r.v < Modulus(width)
  {
  }

  /** And then they are what the events say: the canonical frame address by the
      registers of the callee; everything else with the canonical frame address known. */
  lemma CallersMean(
      info: FrameInfo, names: seq<string>, f: Fde, c: int, registers: Dictionary, memory: Memory, width: Width, reg: int)
    requires Proper(f) && Distinguished(names) && Says(info, names, f, c) && Evaluable(names, f, width)
    requires Bounded(registers, Some(memory), width) && Callers(info, registers, memory, width).Some?
    ensures var r := Callers(info, registers, memory, width).value;
            && CFA in r && RA in r && Recovered(names, f, c, CFA_REGISTER, registers, memory, width, r[CFA])
            && (0 <= reg ==>
                  && (RegisterName(names, f.returnAddress, reg) in r <==> Ruled(names, f, c, reg))
                  && (RegisterName(names, f.returnAddress, reg) in r ==>
                        Recovered(names, f, c, reg, registers[CFA := r[CFA]], memory, width, r[RegisterName(names, f.returnAddress, reg)])))
  {
    var r, ra := Callers(info, registers, memory, width).value, f.returnAddress;
    var working := registers[CFA := r[CFA]];
    RuleYields(info, names, f, c, CFA_REGISTER, registers, memory, width, r[CFA]);
    ValueFits(info.cfa, registers, memory, width);
    if 0 <= reg {
      var n := RegisterName(names, ra, reg);
      if reg != ra {
        NotPseudo(names, ra, reg);
      }
      RuleYields(info, names, f, c, reg, working, memory, width, if n in r then r[n] else 0);
    }
  }

  /** End to end: the registers of the caller that are computed from the symbol file at
      an address are those that the call frame information describes there. */
  lemma Unwound(
      o: Orders, load: U64, names: seq<string>, fs: seq<Fde>, c: U64, k: nat, registers: Dictionary, memory: Memory, width: Width,
      reg: int)
    requires Enumerates(o) && Usable(names, load, fs) && Distinguished(names) && load <= c
    requires k < |fs| && fs[k].address <= c < fs[k].address + fs[k].size
    requires Evaluable(names, fs[k], width) && Bounded(registers, Some(memory), width) && 0 <= reg
    ensures var found := Find(ParseInto, ReadBack(o, load, BuiltAll(names, fs)), Sub64(c, load));
            found.Some? && Callers(found.value, registers, memory, width).Some? ==>
              var r, name := Callers(found.value, registers, memory, width).value, RegisterName(names, fs[k].returnAddress, reg);
              && CFA in r && Recovered(names, fs[k], c, CFA_REGISTER, registers, memory, width, r[CFA])
              && (name in r <==> Ruled(names, fs[k], c, reg))
              && (name in r ==> Recovered(names, fs[k], c, reg, registers[CFA := r[CFA]], memory, width, r[name]))
  {
    EventsFound(o, load, names, fs, c, k);
    var found := Find(ParseInto, ReadBack(o, load, BuiltAll(names, fs)), Sub64(c, load));
    if found.Some? && Callers(found.value, registers, memory, width).Some? {
      CallersMean(found.value, names, fs[k], c, registers, memory, width, reg);
    }
  }
}
