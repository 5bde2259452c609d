/** From the rules that DWARF call frame information gives for registers to the
    registers of the caller, as `CFIFrameInfo::FindCallerRegs` computes them from what
    the symbol file says.
 */
module CfiCallers {
  import opened Machine
  import opened Texts
  import opened CfiRules
  import opened CfiRecords
  import opened CfiTables
  import opened CfiMeaning
  import opened CfiDwarf
  import opened PostfixEvaluators

  // ----- Caller registers

  /** What the registers of the caller are, if they can be found: the canonical frame
      address first, and everything else with it in place. */
  ghost function Callers(info: FrameInfo, registers: Dictionary, memory: Memory, width: Width): Option<Dictionary>
  {
    if info.cfa == "" || info.ra == "" then None
    else
      match Evaluation(info.cfa, registers, Some(memory), width)
      case Value(cfa) =>
        var working := registers[CFA := cfa];
        var ra := Evaluation(info.ra, working, Some(memory), width);
        if ra.Value? && AllYield(info.regs, working, memory, width) then
          Some(Yielded(info.regs, working, memory, width)[RA := ra.v][CFA := cfa])
        else None
      case _ => None
  }

  ghost predicate AllYield(rules: map<string, string>, working: Dictionary, memory: Memory, width: Width)
  {
    forall n :: n in rules ==> Evaluation(rules[n], working, Some(memory), width).Value?
  }

  ghost function Yielded(rules: map<string, string>, working: Dictionary, memory: Memory, width: Width): Dictionary
    requires AllYield(rules, working, memory, width)
  {
    map n | n in rules :: Evaluation(rules[n], working, Some(memory), width).v
  }

  ghost predicate Yields(rules: map<string, string>, working: Dictionary, memory: Memory, width: Width, n: string, v: nat)
  {
    n in rules && Evaluation(rules[n], working, Some(memory), width) == Value(v)
  }

  lemma AllAreYielded(rules: map<string, string>, working: Dictionary, memory: Memory, width: Width, callers: Dictionary)
    requires forall n :: n in rules <==> n in callers
    requires forall n :: n in callers ==> Yields(rules, working, memory, width, n, callers[n])
    ensures AllYield(rules, working, memory, width) && callers == Yielded(rules, working, memory, width)
  {
    assert callers.Keys == rules.Keys;
    forall n | n in rules
      ensures Evaluation(rules[n], working, Some(memory), width) == Value(callers[n])
    {
      assert Yields(rules, working, memory, width, n, callers[n]);
    }
  }

  /** The registers that have rules, visited in the order of their map. */
  method RecoverEach(
      evaluator: PostfixEvaluator, rules: map<string, string>, working: Dictionary, ghost memory: Memory, order: seq<string>)
    returns (r: Option<Dictionary>)
    requires evaluator.stack == [] && evaluator.memory == Some(memory) && forall n :: n in order <==> n in rules
    modifies evaluator
    ensures r == if AllYield(rules, working, memory, evaluator.width) then Some(Yielded(rules, working, memory, evaluator.width)) else None
  {
    var callers: Dictionary := map[];
    ghost var width := evaluator.width;
    for i := 0 to |order|
      invariant evaluator.stack == []
      invariant forall n :: n in callers <==> n in order[..i]
      invariant forall n :: n in callers ==> Yields(rules, working, memory, width, n, callers[n])
    {
      var n := order[i];
      SliceSnoc(order, i);
      evaluator.dictionary := working;
      var value := evaluator.EvaluateForValue(rules[n]);
      if !value.Value? {
        return None;
      }
      assert Yields(rules, working, memory, width, n, value.v);
      callers := callers[n := value.v];
    }
    assert order[..|order|] == order;
    AllAreYielded(rules, working, memory, width, callers);
    r := Some(callers);
  }

  /** `FindCallerRegs`. Where the program would die, nothing is found. */
  method FindCallerRegs(info: FrameInfo, registers: Dictionary, memory: Memory, width: Width, order: seq<string>)
    returns (r: Option<Dictionary>)
    requires forall n :: n in order <==> n in info.regs
    ensures r == Callers(info, registers, memory, width)
  {
    if info.cfa == "" || info.ra == "" {
      return None;
    }
    var evaluator := new PostfixEvaluator(registers, Some(memory), width);
    var cfa := evaluator.EvaluateForValue(info.cfa);
    if !cfa.Value? {
      return None;
    }
    var working := registers[CFA := cfa.v];
    evaluator.dictionary := working;
    var ra := evaluator.EvaluateForValue(info.ra);
    if !ra.Value? {
      return None;
    }
    var callers := RecoverEach(evaluator, info.regs, working, memory, order);
    if callers.None? {
      return None;
    }
    r := Some(callers.value[RA := ra.v][CFA := cfa.v]);
  }

  // ----- What a rule means

  predicate Supported(rule: Rule)
  {
    rule.SameValue? || rule.Offset? || rule.ValOffset? || rule.Register?
  }

  /** The value of a register of the callee, or of the canonical frame address. */
  function RegisterValue(names: seq<string>, ra: nat, reg: int, d: Dictionary, width: Width): Option<nat>
    requires CFA_REGISTER <= reg
  {
    var w := RegisterName(names, ra, reg);
    if w in d && d[w] < Modulus(width) then Some(d[w]) else None
  }

  /** The value that a rule gives to a register of the caller: that of a register, that
      plus an offset, or what memory holds at that plus an offset. */
  function RuleMeans(names: seq<string>, ra: nat, reg: int, rule: Rule, d: Dictionary, memory: Memory, width: Width): Option<nat>
    requires CFA_REGISTER <= reg && rule.Cited() && Supported(rule)
  {
    var base := RegisterValue(names, ra, if rule.SameValue? then reg else rule.base, d, width);
    match rule
    case Offset(_, offset) => if base.None? then None else Fetched(Some(memory), Some(Wrap(base.value + offset, width)), width)
    case ValOffset(_, offset) => if base.None? then None else Some(Wrap(base.value + offset, width))
    case _ => base
  }

  /** An offset that the type can hold, as every offset does in 64 bits. */
  predicate OffsetFits(rule: Rule, width: Width)
  {
    rule.Offset? || rule.ValOffset? ==> -1 * Modulus(width) < rule.offset < Modulus(width)
  }

  /** Every register has no name or one that the evaluator takes for a variable. */
  ghost predicate VariableNames(names: seq<string>, width: Width)
  {
    forall i :: 0 <= i < |names| ==> names[i] == "" || IsVariable(names[i], width)
  }

  lemma NamesAreVariables(names: seq<string>, ra: nat, reg: int, width: Width)
    requires VariableNames(names, width) && CFA_REGISTER <= reg
    ensures IsVariable(RegisterName(names, ra, reg), width)
  {
    var w := RegisterName(names, ra, reg);
    if reg >= 0 && reg != ra && !(reg < |names| && names[reg] != "") {
      PrintedIsPushed(reg);
      assert w[0] == 'u' && !IsDigit(w[0]);
    } else if reg < 0 || reg == ra {
      assert w[0] == '.' && !IsDigit(w[0]);
    }
  }

  /** The rule as an expression. */
  function ExprOf(names: seq<string>, ra: nat, reg: int, rule: Rule): Expr
    requires CFA_REGISTER <= reg && rule.Cited() && Supported(rule)
  {
    var base := Variable(RegisterName(names, ra, if rule.SameValue? then reg else rule.base));
    match rule
    case Offset(_, offset) => Dereference(Binary('+', base, Constant(offset)))
    case ValOffset(_, offset) => Binary('+', base, Constant(offset))
    case _ => base
  }

  lemma SumPostfix(w: string, n: int)
    ensures Join(Postfix(Binary('+', Variable(w), Constant(n)))) == w + " " + PrintSigned(n) + " +"
    ensures Join(Postfix(Dereference(Binary('+', Variable(w), Constant(n))))) == w + " " + PrintSigned(n) + " + ^"
  {
    var d := PrintSigned(n);
    var sum := Binary('+', Variable(w), Constant(n));
    JoinOne(w);
    JoinMore([w], d, w);
    JoinMore([w] + [d], "+", w + " " + d);
    JoinMore([w] + [d] + ["+"], "^", w + " " + d + " " + "+");
    assert Postfix(sum) == [w] + [d] + ["+"];
    assert Postfix(Dereference(sum)) == [w] + [d] + ["+"] + ["^"];
    Tail(w + " " + d, " ", "+", " ", "^");
    assert " " + "+" == " +" && " +" + " " + "^" == " + ^";
  }

  /** The text of a rule is its expression in postfix notation. */
  lemma TextIsPostfix(names: seq<string>, ra: nat, reg: int, rule: Rule)
    requires CFA_REGISTER <= reg && rule.Cited()
    ensures TextOf(names, ra, reg, rule).Some? <==> Supported(rule)
    ensures Supported(rule) ==> TextOf(names, ra, reg, rule).value == Join(Postfix(ExprOf(names, ra, reg, rule)))
  {
    if rule.Offset? || rule.ValOffset? {
      SumPostfix(RegisterName(names, ra, rule.base), rule.offset);
    } else if Supported(rule) {
      JoinOne(RegisterName(names, ra, if rule.SameValue? then reg else rule.base));
    }
  }

  lemma ExprMeans(names: seq<string>, ra: nat, reg: int, rule: Rule, d: Dictionary, memory: Memory, width: Width)
    requires CFA_REGISTER <= reg && rule.Cited() && Supported(rule) && VariableNames(names, width) && OffsetFits(rule, width)
    ensures Sensible(ExprOf(names, ra, reg, rule), width)
    ensures Denotes(ExprOf(names, ra, reg, rule), d, Some(memory), width) == RuleMeans(names, ra, reg, rule, d, memory, width)
  {
    var w := RegisterName(names, ra, if rule.SameValue? then reg else rule.base);
    NamesAreVariables(names, ra, if rule.SameValue? then reg else rule.base, width);
    if rule.Offset? || rule.ValOffset? {
      SumMeans(w, rule.offset, d, memory, width);
    } else {
      assert ExprOf(names, ra, reg, rule) == Variable(w);
    }
  }

  lemma SumMeans(w: string, n: int, d: Dictionary, memory: Memory, width: Width)
    requires IsVariable(w, width) && -1 * Modulus(width) < n < Modulus(width)
    ensures var sum := Binary('+', Variable(w), Constant(n));
            && Sensible(sum, width)
            && Denotes(sum, d, Some(memory), width) ==
               (if w in d && d[w] < Modulus(width) then Some(Wrap(d[w] + n, width)) else None)
            && Sensible(Dereference(sum), width)
            && Denotes(Dereference(sum), d, Some(memory), width) ==
               if w in d && d[w] < Modulus(width) then Fetched(Some(memory), Some(Wrap(d[w] + n, width)), width) else None
  {
    var sum := Binary('+', Variable(w), Constant(n));
    assert Sensible(Variable(w), width) && Sensible(Constant(n), width);
    assert Denotes(Constant(n), d, Some(memory), width) == Some(Wrap(n, width));
    if w in d && d[w] < Modulus(width) {
      WrapSum(d[w], n, width);
      assert Denotes(Variable(w), d, Some(memory), width) == Some(d[w]);
      assert Denotes(sum, d, Some(memory), width) == Operate('+', d[w], Wrap(n, width), width);
    }
  }

  lemma WrapSum(a: nat, n: int, width: Width)
    ensures Wrap(a + Wrap(n, width), width) == Wrap(a + n, width)
  {
  }

  /** The text recorded for a rule evaluates to what the rule means, and to nothing if it
      means nothing. */
  lemma TextMeans(names: seq<string>, ra: nat, reg: int, rule: Rule, d: Dictionary, memory: Memory, width: Width)
    requires CFA_REGISTER <= reg && rule.Cited() && Supported(rule) && VariableNames(names, width) && OffsetFits(rule, width)
    requires Bounded(d, Some(memory), width)
    ensures TextOf(names, ra, reg, rule).Some?
    ensures var r := Evaluation(TextOf(names, ra, reg, rule).value, d, Some(memory), width);
            match RuleMeans(names, ra, reg, rule, d, memory, width)
            case Some(v) => r == Value(v)
            case None => !r.Value?
  {
    TextIsPostfix(names, ra, reg, rule);
    ExprMeans(names, ra, reg, rule, d, memory, width);
    ExpressionMeans(ExprOf(names, ra, reg, rule), d, Some(memory), width);
  }

  /** A register saved sixteen bytes below the canonical frame address. */
  lemma SavedBelow(names: seq<string>, ra: nat, reg: nat)
    ensures TextOf(names, ra, reg, Offset(CFA_REGISTER, -16)) == Some(".cfa -16 + ^")
  {
    assert Print(1, 10) == "1";
    assert Print(16, 10) == "16";
    assert PrintSigned(-16) == "-16";
    assert CFA + " " + "-16" + " + ^" == ".cfa -16 + ^";
  }
}
