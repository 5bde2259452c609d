/** Rule sets of STACK CFI records: parsing, serializing, and what survives both. */
module CfiRules {
  import opened Machine
  import opened Texts

  /** `token_breaks` of the parser, and the same with the string terminator. */
  const BREAKS: string := " \t\r\n"
  const UNSAFE: string := " \t\r\n\0"

  const CFA: string := ".cfa"
  const RA: string := ".ra"

  /** `CFIFrameInfo`; an empty string is no rule. */
  datatype FrameInfo = FrameInfo(cfa: string, ra: string, regs: map<string, string>) {
    /** What the parse handler does with one rule. */
    function Set(name: string, rule: string): FrameInfo
    {
      if name == CFA then this.(cfa := rule)
      else if name == RA then this.(ra := rule)
      else this.(regs := regs[name := rule])
    }

    /** The rule in force for a register or pseudoregister. */
    function Rule(name: string): Option<string>
    {
      if name == CFA then (if cfa == "" then None else Some(cfa))
      else if name == RA then (if ra == "" then None else Some(ra))
      else if name in regs then Some(regs[name]) else None
    }
  }

  const EMPTY: FrameInfo := FrameInfo("", "", map[])

  // ----- Parsing

  predicate IsName(token: string)
  {
    token != "" && token[|token| - 1] == ':'
  }

  function Extend(expression: string, token: string): string
  {
    if expression == "" then token else expression + " " + token
  }

  /** `Report`: hands a finished rule to the handler. */
  function Report(name: string, expression: string, info: FrameInfo): (bool, FrameInfo)
  {
    if name == "" || expression == "" then (false, info) else (true, info.Set(name, expression))
  }

  /** The parser from `token` on, with its pending name and expression. */
  function ParseTokens(ts: seq<string>, name: string, expression: string, info: FrameInfo): (bool, FrameInfo)
    decreases |ts|
  {
    if ts == [] then Report(name, expression, info)
    else if IsName(ts[0]) then
      if |ts[0]| < 2 then (false, info)
      else
        var r := if name != "" || expression != "" then Report(name, expression, info) else (true, info);
        if !r.0 then r else ParseTokens(ts[1..], ts[0][..|ts[0]| - 1], "", r.1)
    else ParseTokens(ts[1..], name, Extend(expression, ts[0]), info)
  }

  /** `CFIRuleParser::Parse` feeding a frame info. */
  method Parse(ruleSet: string, info: FrameInfo) returns (ok: bool, r: FrameInfo)
    ensures (ok, r) == ParseTokens(Tokens(CString(ruleSet), BREAKS), "", "", info)
  {
    var name, expression := "", "";
    r := info;
    var token := NextToken(CString(ruleSet), BREAKS);
    TokensByCalls(CString(ruleSet), BREAKS);
    while token.Some?
      invariant token.Some? ==> token.value.0 != ""
      invariant ParseTokens(Tokens(CString(ruleSet), BREAKS), "", "", info) ==
                ParseTokens(if token.None? then [] else [token.value.0] + Tokens(token.value.1, BREAKS),
                            name, expression, r)
      decreases if token.None? then 0 else 1 + |token.value.1|
    {
      var (t, cursor) := token.value;
      assert ([t] + Tokens(cursor, BREAKS))[1..] == Tokens(cursor, BREAKS);
      if t[|t| - 1] == ':' {
        if |t| < 2 {
          return false, r;
        }
        if name != "" || expression != "" {
          var reported := Report(name, expression, r);
          r := reported.1;
          if !reported.0 {
            return false, r;
          }
        }
        name, expression := t[..|t| - 1], "";
      } else {
        expression := Extend(expression, t);
      }
      TokensByCalls(cursor, BREAKS);
      token := NextToken(cursor, BREAKS);
    }
    var reported := Report(name, expression, r);
    ok, r := reported.0, reported.1;
  }

  // ----- The grammar of rule sets

  /** One rule: a name and the words of its expression. */
  datatype Group = Group(name: string, words: seq<string>)

  predicate GoodGroup(g: Group)
  {
    && g.name != "" && g.words != []
    && forall i :: 0 <= i < |g.words| ==> g.words[i] != "" && !IsName(g.words[i])
  }

  /** A group whose words may be missing. */
  predicate NamedGroup(g: Group)
  {
    g.name != "" && forall i :: 0 <= i < |g.words| ==> g.words[i] != "" && !IsName(g.words[i])
  }

  /** One or more groups "name: token+". */
  predicate GoodGroups(gs: seq<Group>)
  {
    gs != [] && forall i :: 0 <= i < |gs| ==> GoodGroup(gs[i])
  }

  /** The tokens of a sequence of groups. */
  function Flat(gs: seq<Group>): seq<string>
  {
    if gs == [] then [] else [gs[0].name + ":"] + gs[0].words + Flat(gs[1..])
  }

  /** The rules of the groups, later ones winning. */
  function Apply(gs: seq<Group>, info: FrameInfo): FrameInfo
  {
    if gs == [] then info else Apply(gs[1..], info.Set(gs[0].name, Join(gs[0].words)))
  }

  lemma JoinEmpty(ws: seq<string>)
    requires forall i :: 0 <= i < |ws| ==> ws[i] != ""
    ensures Join(ws) == "" <==> ws == []
  {
  }

  /** The parser collects the words of an expression. */
  lemma {:induction false} ParseWords(done: seq<string>, ws: seq<string>, ts: seq<string>, name: string, info: FrameInfo)
    requires forall i :: 0 <= i < |done| ==> done[i] != ""
    requires forall i :: 0 <= i < |ws| ==> ws[i] != "" && !IsName(ws[i])
    ensures ParseTokens(ws + ts, name, Join(done), info) == ParseTokens(ts, name, Join(done + ws), info)
    decreases |ws|
  {
    if ws == [] {
      assert ws + ts == ts && done + ws == done;
    } else {
      var more := done + [ws[0]];
      JoinEmpty(done);
      assert more[..|more| - 1] == done;
      assert Join(more) == Extend(Join(done), ws[0]);
      assert (ws + ts)[1..] == ws[1..] + ts && done + ws == more + ws[1..];
      ParseWords(more, ws[1..], ts, name, info);
    }
  }

  /** After one group the parser goes on with the next, or ends. */
  lemma ParseOneGroup(g: Group, ts: seq<string>, name: string, expression: string, info: FrameInfo)
    requires NamedGroup(g) && (name == "" <==> expression == "")
    ensures ParseTokens([g.name + ":"] + g.words + ts, name, expression, info) ==
            ParseTokens(ts, g.name, Join(g.words),
                        if name == "" then info else info.Set(name, expression))
  {
    var all := [g.name + ":"] + g.words + ts;
    assert all[1..] == g.words + ts;
    assert (g.name + ":")[..|g.name|] == g.name;
    var next := if name == "" then info else info.Set(name, expression);
    assert ParseTokens(all, name, expression, info) == ParseTokens(g.words + ts, g.name, "", next);
    ParseWords([], g.words, ts, g.name, next);
    assert [] + g.words == g.words;
  }

  lemma {:induction false} ParseGroupsPending(gs: seq<Group>, name: string, expression: string, info: FrameInfo)
    requires forall i :: 0 <= i < |gs| ==> GoodGroup(gs[i])
    requires name != "" && expression != ""
    ensures ParseTokens(Flat(gs), name, expression, info) == (true, Apply(gs, info.Set(name, expression)))
    decreases |gs|
  {
    if gs != [] {
      ParseOneGroup(gs[0], Flat(gs[1..]), name, expression, info);
      JoinEmpty(gs[0].words);
      ParseGroupsPending(gs[1..], gs[0].name, Join(gs[0].words), info.Set(name, expression));
    }
  }

  /** Every sequence of groups is accepted, and its rules applied in order. */
  lemma ParseAcceptsGroups(gs: seq<Group>, info: FrameInfo)
    requires GoodGroups(gs)
    ensures ParseTokens(Flat(gs), "", "", info) == (true, Apply(gs, info))
  {
    ParseOneGroup(gs[0], Flat(gs[1..]), "", "", info);
    JoinEmpty(gs[0].words);
    ParseGroupsPending(gs[1..], gs[0].name, Join(gs[0].words), info);
  }

  ghost predicate NoneLacks(gs: seq<Group>)
  {
    gs == [] || (gs[0].words != [] && NoneLacks(gs[1..]))
  }

  lemma {:induction false} NoneLacksExact(gs: seq<Group>)
    ensures NoneLacks(gs) <==> forall i :: 0 <= i < |gs| ==> gs[i].words != []
    decreases |gs|
  {
    if gs != [] {
      NoneLacksExact(gs[1..]);
      assert gs == [gs[0]] + gs[1..];
    }
  }

  /** After a name, groups are accepted exactly if none of them lacks words. */
  lemma {:induction false} NamedGroupsPending(gs: seq<Group>, name: string, expression: string, info: FrameInfo)
    requires name != "" && forall i :: 0 <= i < |gs| ==> NamedGroup(gs[i])
    ensures ParseTokens(Flat(gs), name, expression, info).0 <==> expression != "" && NoneLacks(gs)
    decreases |gs|
  {
    if gs != [] && expression != "" {
      ParseOneGroup(gs[0], Flat(gs[1..]), name, expression, info);
      JoinEmpty(gs[0].words);
      NamedGroupsPending(gs[1..], gs[0].name, Join(gs[0].words), info.Set(name, expression));
    }
  }

  /** Groups are accepted exactly if there is one and none lacks words. */
  lemma NamedGroupsExact(gs: seq<Group>, info: FrameInfo)
    requires gs != [] && forall i :: 0 <= i < |gs| ==> NamedGroup(gs[i])
    ensures ParseTokens(Flat(gs), "", "", info).0 <==> forall i :: 0 <= i < |gs| ==> gs[i].words != []
  {
    ParseOneGroup(gs[0], Flat(gs[1..]), "", "", info);
    JoinEmpty(gs[0].words);
    NamedGroupsPending(gs[1..], gs[0].name, Join(gs[0].words), info);
    NoneLacksExact(gs);
  }

  /** An expression without a name is never accepted. */
  lemma {:induction false} NamelessRejected(ts: seq<string>, expression: string, info: FrameInfo)
    requires expression != ""
    ensures !ParseTokens(ts, "", expression, info).0
    decreases |ts|
  {
    if ts != [] && !IsName(ts[0]) {
      NamelessRejected(ts[1..], Extend(expression, ts[0]), info);
    }
  }

  /** What the parser accepts after `name: ws` are the rest of a group and groups. */
  lemma {:induction false} AcceptedPending(ts: seq<string>, name: string, ws: seq<string>, info: FrameInfo)
    returns (gs: seq<Group>)
    requires forall i :: 0 <= i < |ts| ==> ts[i] != ""
    requires forall i :: 0 <= i < |ws| ==> ws[i] != "" && !IsName(ws[i])
    requires name != "" && ParseTokens(ts, name, Join(ws), info).0
    ensures GoodGroups(gs) && [name + ":"] + ws + ts == Flat(gs)
    decreases |ts|
  {
    JoinEmpty(ws);
    if ts == [] {
      gs := [Group(name, ws)];
      assert Flat(gs[1..]) == [];
    } else if IsName(ts[0]) {
      var n := ts[0][..|ts[0]| - 1];
      var rest := AcceptedPending(ts[1..], n, [], info.Set(name, Join(ws)));
      gs := [Group(name, ws)] + rest;
      OneMoreGroup(name, ws, n, ts, rest);
    } else {
      var more := ws + [ts[0]];
      assert more[..|more| - 1] == ws;
      assert Join(more) == Extend(Join(ws), ts[0]);
      gs := AcceptedPending(ts[1..], name, more, info);
      OneMoreWord([name + ":"], ws, ts);
    }
  }

  lemma OneMoreGroup(name: string, ws: seq<string>, n: string, ts: seq<string>, rest: seq<Group>)
    requires ts != [] && ts[0] == n + ":" && [n + ":"] + [] + ts[1..] == Flat(rest)
    ensures [name + ":"] + ws + ts == Flat([Group(name, ws)] + rest)
  {
    assert ([Group(name, ws)] + rest)[1..] == rest;
    assert [n + ":"] + [] + ts[1..] == ts;
  }

  lemma OneMoreWord(head: seq<string>, ws: seq<string>, ts: seq<string>)
    requires ts != []
    ensures head + (ws + [ts[0]]) + ts[1..] == head + ws + ts
  {
  }

  /** Only sequences of groups are accepted. */
  lemma AcceptedAreGroups(ts: seq<string>, info: FrameInfo) returns (gs: seq<Group>)
    requires forall i :: 0 <= i < |ts| ==> ts[i] != ""
    requires ParseTokens(ts, "", "", info).0
    ensures GoodGroups(gs) && ts == Flat(gs)
  {
    if IsName(ts[0]) {
      var n := ts[0][..|ts[0]| - 1];
      gs := AcceptedPending(ts[1..], n, [], info);
      assert n + ":" == ts[0];
      assert [n + ":"] + [] + ts[1..] == ts;
    } else {
      NamelessRejected(ts[1..], ts[0], info);
    }
  }

  /** Acceptance, exactly: one or more groups "name: token+". */
  lemma AcceptanceExact(ruleSet: string, info: FrameInfo)
    ensures ParseTokens(Tokens(CString(ruleSet), BREAKS), "", "", info).0 <==>
            exists gs :: GoodGroups(gs) && Tokens(CString(ruleSet), BREAKS) == Flat(gs)
  {
    var ts := Tokens(CString(ruleSet), BREAKS);
    CutAreWords("", CString(ruleSet), BREAKS);
    if ParseTokens(ts, "", "", info).0 {
      var gs := AcceptedAreGroups(ts, info);
    }
    if gs :| GoodGroups(gs) && ts == Flat(gs) {
      ParseAcceptsGroups(gs, info);
    }
  }

  // ----- Writing rule sets

  /** A name that survives printing: no blank, no terminator. */
  predicate SafeName(name: string)
  {
    Word(name, UNSAFE)
  }

  /** A rule that survives printing: words with single spaces between them, none
      of which looks like a name. */
  predicate SafeRule(rule: string)
  {
    && Clean(rule, "\0")
    && Tokens(rule, BREAKS) != []
    && Join(Tokens(rule, BREAKS)) == rule
    && forall i :: 0 <= i < |Tokens(rule, BREAKS)| ==> !IsName(Tokens(rule, BREAKS)[i])
  }

  type RuleList = seq<(string, string)>

  predicate SafeRules(rs: RuleList)
  {
    forall i :: 0 <= i < |rs| ==> SafeName(rs[i].0) && SafeRule(rs[i].1)
  }

  /** The same, except that rules may be missing. */
  predicate SafeOrMissing(rs: RuleList)
  {
    forall i :: 0 <= i < |rs| ==> SafeName(rs[i].0) && (rs[i].1 == "" || SafeRule(rs[i].1))
  }

  /** Rules as `WriteRuleMap` and `Serialize` print them. */
  function RuleText(rs: RuleList): string
  {
    if rs == [] then ""
    else
      var n := |rs| - 1;
      RuleText(rs[..n]) + (if n == 0 then "" else " ") + rs[n].0 + ": " + rs[n].1
  }

  lemma RuleTextAppend(rs: RuleList, name: string, rule: string)
    ensures RuleText(rs + [(name, rule)]) == RuleText(rs) + (if rs == [] then "" else " ") + name + ": " + rule
    ensures RuleText(rs + [(name, rule)]) != ""
  {
    var more := rs + [(name, rule)];
    assert more[..|rs|] == rs;
  }

  function SetAll(rs: RuleList, info: FrameInfo): FrameInfo
  {
    if rs == [] then info
    else SetAll(rs[..|rs| - 1], info).Set(rs[|rs| - 1].0, rs[|rs| - 1].1)
  }

  function GroupsOf(rs: RuleList): (gs: seq<Group>)
    ensures |gs| == |rs|
  {
    seq(|rs|, i requires 0 <= i < |rs| => Group(rs[i].0, Tokens(rs[i].1, BREAKS)))
  }

  lemma {:induction false} FlatSnoc(gs: seq<Group>, g: Group)
    ensures Flat(gs + [g]) == Flat(gs) + [g.name + ":"] + g.words
    decreases |gs|
  {
    if gs == [] {
      assert gs + [g] == [g];
      assert [g][1..] == [];
      assert Flat([g]) == [g.name + ":"] + g.words;
    } else {
      assert (gs + [g])[1..] == gs[1..] + [g];
      FlatSnoc(gs[1..], g);
    }
  }

  lemma {:induction false} ApplySnoc(gs: seq<Group>, g: Group, info: FrameInfo)
    ensures Apply(gs + [g], info) == Apply(gs, info).Set(g.name, Join(g.words))
    decreases |gs|
  {
    if gs == [] {
      assert gs + [g] == [g] && [g][1..] == [];
    } else {
      assert (gs + [g])[1..] == gs[1..] + [g];
      ApplySnoc(gs[1..], g, info.Set(gs[0].name, Join(gs[0].words)));
    }
  }

  /** The tokens of one printed rule. */
  lemma OneRuleTokens(name: string, rule: string)
    requires SafeName(name)
    ensures Tokens(name + ": " + rule, BREAKS) == [name + ":"] + Tokens(rule, BREAKS)
  {
    var w := name + ":";
    assert name + ": " + rule == w + [' '] + rule;
    TokensConcat(w, ' ', rule, BREAKS);
    assert Word(w, BREAKS) by {
      forall i | 0 <= i < |w|
        ensures w[i] !in BREAKS
      {
        assert w[i] == if i < |name| then name[i] else ':';
      }
    }
    LoneWord(w, BREAKS);
  }

  lemma {:induction false} RuleTextClean(rs: RuleList)
    requires SafeOrMissing(rs)
    ensures Clean(RuleText(rs), "\0")
    decreases |rs|
  {
    if rs != [] {
      RuleTextClean(rs[..|rs| - 1]);
    }
  }

  /** Printing one more rule adds the tokens of its group. */
  lemma {:induction false} RuleTextSnoc(rs: RuleList, n: nat)
    requires n == |rs| - 1 && SafeName(rs[n].0)
    ensures Tokens(RuleText(rs), BREAKS) ==
            Tokens(RuleText(rs[..n]), BREAKS) + ([rs[n].0 + ":"] + Tokens(rs[n].1, BREAKS))
  {
    var last := rs[n].0 + ": " + rs[n].1;
    OneRuleTokens(rs[n].0, rs[n].1);
    if n == 0 {
      assert RuleText(rs[..n]) == "" && RuleText(rs) == last;
      assert Tokens("", BREAKS) == [];
    } else {
      TokensConcat(RuleText(rs[..n]), ' ', last, BREAKS);
      assert RuleText(rs) == RuleText(rs[..n]) + [' '] + last;
    }
  }

  /** The tokens of printed rules are those of their groups. */
  lemma {:induction false} RuleTextTokens(rs: RuleList)
    requires SafeOrMissing(rs)
    ensures Tokens(RuleText(rs), BREAKS) == Flat(GroupsOf(rs))
    decreases |rs|
  {
    if rs == [] {
      assert Tokens("", BREAKS) == [];
    } else {
      var n := |rs| - 1;
      RuleTextTokens(rs[..n]);
      RuleTextSnoc(rs, n);
      assert GroupsOf(rs) == GroupsOf(rs[..n]) + [GroupsOf(rs)[n]];
      FlatSnoc(GroupsOf(rs[..n]), GroupsOf(rs)[n]);
    }
  }

  lemma {:induction false} ApplyGroupsOf(rs: RuleList, info: FrameInfo)
    requires SafeRules(rs)
    ensures Apply(GroupsOf(rs), info) == SetAll(rs, info)
    decreases |rs|
  {
    if rs != [] {
      var n := |rs| - 1;
      ApplyGroupsOf(rs[..n], info);
      assert GroupsOf(rs) == GroupsOf(rs[..n]) + [GroupsOf(rs)[n]];
      ApplySnoc(GroupsOf(rs[..n]), GroupsOf(rs)[n], info);
    }
  }

  /** What is printed is parsed back: the rules are set, in the order printed. */
  lemma ParseRuleText(rs: RuleList, info: FrameInfo)
    requires SafeRules(rs) && rs != []
    ensures ParseTokens(Tokens(CString(RuleText(rs)), BREAKS), "", "", info) == (true, SetAll(rs, info))
  {
    RuleTextClean(rs);
    CStringWhole(RuleText(rs));
    RuleTextTokens(rs);
    forall i | 0 <= i < |rs|
      ensures GoodGroup(GroupsOf(rs)[i])
    {
      CutAreWords("", rs[i].1, BREAKS);
    }
    ParseAcceptsGroups(GroupsOf(rs), info);
    ApplyGroupsOf(rs, info);
  }

  /** Printed rules are accepted exactly if none is missing. */
  lemma RuleTextAccepted(rs: RuleList, info: FrameInfo)
    requires SafeOrMissing(rs) && rs != []
    ensures ParseTokens(Tokens(CString(RuleText(rs)), BREAKS), "", "", info).0 <==> forall i :: 0 <= i < |rs| ==> rs[i].1 != ""
  {
    RuleTextClean(rs);
    CStringWhole(RuleText(rs));
    RuleTextTokens(rs);
    var gs := GroupsOf(rs);
    forall i | 0 <= i < |rs|
      ensures NamedGroup(gs[i]) && (gs[i].words == [] <==> rs[i].1 == "")
    {
      CutAreWords("", rs[i].1, BREAKS);
      assert Tokens("", BREAKS) == [];
    }
    NamedGroupsExact(gs, info);
  }

  // ----- Serializing a frame info

  function Pairs(ks: seq<string>, m: map<string, string>): (rs: RuleList)
    requires forall k :: k in ks ==> k in m
    ensures |rs| == |ks| && forall i :: 0 <= i < |ks| ==> rs[i] == (ks[i], m[ks[i]])
  {
    seq(|ks|, i requires 0 <= i < |ks| => (ks[i], m[ks[i]]))
  }

  function RulesOf(info: FrameInfo, ks: seq<string>): RuleList
    requires forall k :: k in ks ==> k in info.regs
  {
    FixedRules(info) + Pairs(ks, info.regs)
  }

  function FixedRules(info: FrameInfo): RuleList
  {
    (if info.cfa == "" then [] else [(CFA, info.cfa)]) + (if info.ra == "" then [] else [(RA, info.ra)])
  }

  /** The beginning of `Serialize`: the two rules that are not in the map. */
  method SerializeFixed(info: FrameInfo) returns (text: string)
    ensures text == RuleText(FixedRules(info)) && (text == "" <==> FixedRules(info) == [])
  {
    text := "";
    ghost var rs: RuleList := [];
    if info.cfa != "" {
      RuleTextAppend([], CFA, info.cfa);
      text := text + CFA + ": " + info.cfa;
      rs := [] + [(CFA, info.cfa)];
    }
    if info.ra != "" {
      RuleTextAppend(rs, RA, info.ra);
      text := text + if text != "" then " " else "";
      text := text + RA + ": " + info.ra;
      rs := rs + [(RA, info.ra)];
    }
    assert rs == FixedRules(info);
  }

  /** `CFIFrameInfo::Serialize`, with the register rules taken in the order `ks`. */
  method Serialize(info: FrameInfo, ks: seq<string>) returns (text: string)
    requires forall k :: k in ks ==> k in info.regs
    ensures text == RuleText(RulesOf(info, ks))
  {
    ghost var head := FixedRules(info);
    text := SerializeFixed(info);
    ghost var rs := head;
    assert head + Pairs(ks[..0], info.regs) == head;
    for i := 0 to |ks|
      invariant rs == head + Pairs(ks[..i], info.regs)
      invariant text == RuleText(rs) && (text == "" <==> rs == [])
    {
      RuleTextAppend(rs, ks[i], info.regs[ks[i]]);
      text := text + if text != "" then " " else "";
      text := text + ks[i] + ": " + info.regs[ks[i]];
      rs := rs + [(ks[i], info.regs[ks[i]])];
      assert rs == head + Pairs(ks[..i + 1], info.regs);
    }
    assert ks[..|ks|] == ks;
  }

  /** A frame info that parsing can produce. */
  ghost predicate Settled(info: FrameInfo)
  {
    && (info.cfa != "" ==> SafeRule(info.cfa)) && (info.ra != "" ==> SafeRule(info.ra))
    && CFA !in info.regs && RA !in info.regs
    && forall k :: k in info.regs ==> SafeName(k) && SafeRule(info.regs[k])
  }

  lemma SettledSet(info: FrameInfo, name: string, rule: string)
    requires Settled(info) && SafeName(name) && SafeRule(rule)
    ensures Settled(info.Set(name, rule))
  {
  }

  lemma JoinedIsSafe(ws: seq<string>)
    requires ws != [] && forall i :: 0 <= i < |ws| ==> Word(ws[i], UNSAFE) && !IsName(ws[i])
    ensures SafeRule(Join(ws))
  {
    forall i | 0 <= i < |ws|
      ensures Word(ws[i], BREAKS)
    {
    }
    TokensJoin(ws, BREAKS);
    JoinClean(ws);
  }

  lemma {:induction false} JoinClean(ws: seq<string>)
    requires forall i :: 0 <= i < |ws| ==> Word(ws[i], UNSAFE)
    ensures Clean(Join(ws), "\0")
    decreases |ws|
  {
    if |ws| > 1 {
      JoinClean(ws[..|ws| - 1]);
    }
  }

  ghost predicate SafeGroups(gs: seq<Group>)
  {
    forall i :: 0 <= i < |gs| ==>
      GoodGroup(gs[i]) && SafeName(gs[i].name) && forall k :: 0 <= k < |gs[i].words| ==> Word(gs[i].words[k], UNSAFE)
  }

  lemma {:induction false} ApplySettled(gs: seq<Group>, info: FrameInfo)
    requires Settled(info) && SafeGroups(gs)
    ensures Settled(Apply(gs, info))
    decreases |gs|
  {
    if gs != [] {
      JoinedIsSafe(gs[0].words);
      SettledSet(info, gs[0].name, Join(gs[0].words));
      ApplySettled(gs[1..], info.Set(gs[0].name, Join(gs[0].words)));
    }
  }

  lemma {:induction false} FlatSafe(gs: seq<Group>)
    requires (forall i :: 0 <= i < |gs| ==> GoodGroup(gs[i]))
    requires forall i :: 0 <= i < |Flat(gs)| ==> Word(Flat(gs)[i], UNSAFE)
    ensures SafeGroups(gs)
    decreases |gs|
  {
    if gs != [] {
      var head := [gs[0].name + ":"] + gs[0].words;
      assert Flat(gs) == head + Flat(gs[1..]);
      forall i | 0 <= i < |head|
        ensures Word(head[i], UNSAFE)
      {
        assert head[i] == Flat(gs)[i];
      }
      forall i | 0 <= i < |Flat(gs[1..])|
        ensures Word(Flat(gs[1..])[i], UNSAFE)
      {
        assert Flat(gs[1..])[i] == Flat(gs)[|head| + i];
      }
      assert Word(head[0], UNSAFE);
      assert forall i :: 0 <= i < |gs[0].name| ==> gs[0].name[i] == head[0][i];
      assert forall k :: 0 <= k < |gs[0].words| ==> gs[0].words[k] == head[k + 1];
      FlatSafe(gs[1..]);
    }
  }

  lemma {:induction false} SetAllConcat(a: RuleList, b: RuleList, info: FrameInfo)
    ensures SetAll(a + b, info) == SetAll(b, SetAll(a, info))
    decreases |b|
  {
    if b == [] {
      assert a + b == a;
    } else {
      var n := |b| - 1;
      assert (a + b)[..|a + b| - 1] == a + b[..n];
      SetAllConcat(a, b[..n], info);
    }
  }

  /** The entries of `m` for the keys `ks`. */
  ghost function Chosen(ks: seq<string>, m: map<string, string>): map<string, string>
  {
    map k | k in ks && k in m :: m[k]
  }

  lemma ChosenSnoc(ks: seq<string>, n: nat, m: map<string, string>)
    requires n == |ks| - 1 && ks[n] in m
    ensures Chosen(ks, m) == Chosen(ks[..n], m)[ks[n] := m[ks[n]]]
  {
    assert ks == ks[..n] + [ks[n]];
  }

  lemma {:induction false} SetAllPairs(ks: seq<string>, m: map<string, string>, info: FrameInfo)
    requires forall i :: 0 <= i < |ks| ==> ks[i] in m && ks[i] != CFA && ks[i] != RA
    ensures SetAll(Pairs(ks, m), info) == info.(regs := info.regs + Chosen(ks, m))
    decreases |ks|
  {
    if ks == [] {
      assert info.regs + Chosen(ks, m) == info.regs;
    } else {
      var n := |ks| - 1;
      SetAllPairs(ks[..n], m, info);
      assert Pairs(ks, m)[..n] == Pairs(ks[..n], m);
      ChosenSnoc(ks, n, m);
      assert info.regs + Chosen(ks, m) == (info.regs + Chosen(ks[..n], m))[ks[n] := m[ks[n]]];
    }
  }

  lemma SetAllRulesOf(info: FrameInfo, ks: seq<string>)
    requires Settled(info) && (forall k :: k in ks <==> k in info.regs)
    ensures SetAll(RulesOf(info, ks), EMPTY) == info
  {
    var a: RuleList := if info.cfa == "" then [] else [(CFA, info.cfa)];
    var b: RuleList := if info.ra == "" then [] else [(RA, info.ra)];
    SetAllConcat(a + b, Pairs(ks, info.regs), EMPTY);
    SetAllConcat(a, b, EMPTY);
    SetFixed(a, b, info);
    SetAllPairs(ks, info.regs, EMPTY.(cfa := info.cfa, ra := info.ra));
    assert EMPTY.regs + Chosen(ks, info.regs) == info.regs;
  }

  lemma SetFixed(a: RuleList, b: RuleList, info: FrameInfo)
    requires a == (if info.cfa == "" then [] else [(CFA, info.cfa)]) && b == if info.ra == "" then [] else [(RA, info.ra)]
    ensures SetAll(b, SetAll(a, EMPTY)) == EMPTY.(cfa := info.cfa, ra := info.ra)
  {
    assert SetAll(a, EMPTY) == EMPTY.(cfa := info.cfa);
  }

  lemma {:induction false} SetSticks(gs: seq<Group>, info: FrameInfo)
    requires GoodGroups(gs)
    ensures Apply(gs, info) != EMPTY
    decreases |gs|
  {
    JoinEmpty(gs[0].words);
    var next := info.Set(gs[0].name, Join(gs[0].words));
    if |gs| == 1 {
      assert gs[1..] == [];
      assert next.cfa != "" || next.ra != "" || gs[0].name in next.regs;
    } else {
      SetSticks(gs[1..], next);
    }
  }

  /** For every rule set the parser accepts, the frame info it builds is settled,
      and what `Serialize` prints of it is accepted again and rebuilds it. */
  lemma SerializeRoundTrip(ruleSet: string, ks: seq<string>)
    requires ParseTokens(Tokens(CString(ruleSet), BREAKS), "", "", EMPTY).0
    requires var info := ParseTokens(Tokens(CString(ruleSet), BREAKS), "", "", EMPTY).1;
             forall k :: k in ks <==> k in info.regs
    ensures var info := ParseTokens(Tokens(CString(ruleSet), BREAKS), "", "", EMPTY).1;
            ParseTokens(Tokens(CString(RuleText(RulesOf(info, ks))), BREAKS), "", "", EMPTY) == (true, info)
  {
    var ts := Tokens(CString(ruleSet), BREAKS);
    SafeTokens(ruleSet);
    var gs := AcceptedAreGroups(ts, EMPTY);
    ParseAcceptsGroups(gs, EMPTY);
    FlatSafe(gs);
    var info := Apply(gs, EMPTY);
    ApplySettled(gs, EMPTY);
    SetSticks(gs, EMPTY);
    SetAllRulesOf(info, ks);
    SettledRules(info, ks);
    ParseRuleText(RulesOf(info, ks), EMPTY);
  }

  lemma SafeTokens(s: string)
    ensures forall i :: 0 <= i < |Tokens(CString(s), BREAKS)| ==> Word(Tokens(CString(s), BREAKS)[i], UNSAFE)
  {
    CutAreWords("", CString(s), BREAKS);
    CutClean0("", CString(s));
  }

  lemma {:induction false} CutClean0(cur: string, s: string)
    requires Clean(cur, "\0") && Clean(s, "\0")
    ensures forall i :: 0 <= i < |Cut(cur, s, BREAKS)| ==> Clean(Cut(cur, s, BREAKS)[i], "\0")
    decreases |s|
  {
    if s != "" {
      if s[0] in BREAKS {
        CutClean0("", s[1..]);
      } else {
        CutClean0(cur + [s[0]], s[1..]);
      }
    }
  }

  lemma SettledRules(info: FrameInfo, ks: seq<string>)
    requires Settled(info) && (forall k :: k in ks ==> k in info.regs)
    ensures SafeRules(RulesOf(info, ks))
  {
    assert SafeName(CFA) && SafeName(RA);
  }
}
