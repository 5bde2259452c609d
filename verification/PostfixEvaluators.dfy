/** `PostfixEvaluator`: expressions in postfix notation over a dictionary and memory.
    The stack holds text; an entry is a literal or is looked up when it is popped.
 */
module PostfixEvaluators {
  import opened Machine
  import opened Texts

  /** What separates the words of a stream. */
  const SPACES: string := " \t\n\U{0b}\U{0c}\r"

  type Dictionary = map<string, nat>
  type Memory = nat -> Option<nat>

  // ----- Unsigned values

  /** The two types the evaluator is made for. */
  datatype Width = Narrow | Wide

  function Modulus(width: Width): nat
  {
    if width.Narrow? then TWO_32 else TWO_64
  }

  /** A number as a value of the type. */
  function Wrap(x: int, width: Width): (r: nat)
    ensures r < Modulus(width)
  {
    if width.Narrow? then x % TWO_32 else x % TWO_64
  }

  lemma WrapSmall(x: int, width: Width)
    ensures 0 <= x < Modulus(width) ==> Wrap(x, width) == x
    ensures -1 * Modulus(width) < x < 0 ==> Wrap(x, width) == x + Modulus(width)
  {
  }

  // ----- Literals

  predicate IsDigit(c: char)
  {
    '0' <= c <= '9'
  }

  predicate Decimal(s: string)
  {
    s != "" && forall i :: 0 <= i < |s| ==> IsDigit(s[i])
  }

  function DecimalValue(s: string): nat
    requires s == "" || Decimal(s)
  {
    if s == "" then 0 else 10 * DecimalValue(s[..|s| - 1]) + (s[|s| - 1] as int - '0' as int)
  }

  /** A literal of an unsigned type: a minus sign negates, and the rest has to be a
      number of that type. A second minus sign, which streams of some library versions
      take, makes it no literal. */
  function Literal(token: string, width: Width): (v: Option<nat>)
    ensures v.Some? ==> v.value < Modulus(width)
  {
    var negative := token != "" && token[0] == '-';
    var rest := if negative then token[1..] else token;
    var digits := if rest != "" && rest[0] == '+' then rest[1..] else rest;
    if !Decimal(digits) || DecimalValue(digits) >= Modulus(width) then None
    else if negative then Some(Wrap(0 - DecimalValue(digits), width))
    else Some(DecimalValue(digits))
  }

  lemma DigitAt(d: nat)
    requires d < 10
    ensures IsDigit(DIGITS[d]) && DIGITS[d] as int - '0' as int == d
  {
  }

  lemma {:induction false} DecimalReads(n: nat)
    ensures Decimal(Print(n, 10)) && DecimalValue(Print(n, 10)) == n
    decreases n
  {
    var s := Print(n, 10);
    DigitAt(n % 10);
    if n < 10 {
      assert s[..|s| - 1] == "";
    } else {
      DecimalReads(n / 10);
      assert s[..|s| - 1] == Print(n / 10, 10);
    }
  }

  /** The number that signed decimal text stands for. */
  function SignedValue(s: string): Option<int>
  {
    if Decimal(s) then Some(DecimalValue(s))
    else if s != "" && s[0] == '-' && Decimal(s[1..]) then Some(-1 * DecimalValue(s[1..]))
    else None
  }

  lemma SignedText(n: int)
    ensures n >= 0 ==> Decimal(PrintSigned(n)) && DecimalValue(PrintSigned(n)) == n
    ensures n < 0 ==>
              var s := PrintSigned(n);
              s != "" && s[0] == '-' && Decimal(s[1..]) && DecimalValue(s[1..]) == -n
  {
    var m := if n < 0 then -n else n;
    DecimalReads(m);
    SignedFrom(n, Print(m, 10), PrintSigned(n));
  }

  lemma SignedFrom(n: int, t: string, s: string)
    requires Decimal(t) && DecimalValue(t) == (if n < 0 then -n else n) && s == if n < 0 then "-" + t else t
    ensures n >= 0 ==> Decimal(s) && DecimalValue(s) == n
    ensures n < 0 ==> s != "" && s[0] == '-' && Decimal(s[1..]) && DecimalValue(s[1..]) == -n
  {
    assert n < 0 ==> s[1..] == t;
  }

  /** Every integer printed in decimal is read back, with its sign. */
  lemma SignedReads(n: int)
    ensures SignedValue(PrintSigned(n)) == Some(n)
  {
    SignedText(n);
    SignIsNoDigit(PrintSigned(n));
  }

  lemma SignIsNoDigit(s: string)
    ensures s != "" && (s[0] == '-' || s[0] == '+') ==> !Decimal(s)
  {
    if s != "" && (s[0] == '-' || s[0] == '+') {
      assert !IsDigit(s[0]);
    }
  }

  lemma LiteralText(token: string, width: Width)
    ensures Decimal(token) && DecimalValue(token) < Modulus(width) ==> Literal(token, width) == Some(DecimalValue(token))
    ensures token != "" && token[0] == '-' && Decimal(token[1..]) && DecimalValue(token[1..]) < Modulus(width) ==>
              Literal(token, width) == Some(Wrap(0 - DecimalValue(token[1..]), width))
  {
    SignIsNoDigit(token);
    if token != "" {
      SignIsNoDigit(token[1..]);
    }
  }

  /** As a literal it is taken for its value in the type. */
  lemma LiteralReads(n: int, width: Width)
    requires -1 * Modulus(width) < n < Modulus(width)
    ensures Literal(PrintSigned(n), width) == Some(Wrap(n, width))
  {
    SignedText(n);
    LiteralText(PrintSigned(n), width);
    WrapSmall(n, width);
  }

  lemma PushedReads(v: nat, width: Width)
    requires v < Modulus(width)
    ensures Literal(Print(v, 10), width) == Some(v)
  {
    LiteralReads(v, width);
    WrapSmall(v, width);
  }

  // ----- Operations

  /** Bits set in both. */
  function And(a: nat, b: nat): (r: nat)
    ensures r <= a
  {
    if a == 0 then 0 else 2 * And(a / 2, b / 2) + (if a % 2 == 1 && b % 2 == 1 then 1 else 0)
  }

  const BINARY: string := "+-*/%@"

  /** A binary operation of an unsigned type; none where the machine traps. */
  function Operate(op: char, a: nat, b: nat, width: Width): (r: Option<nat>)
    requires a < Modulus(width) && b < Modulus(width) && op in BINARY
    ensures r.Some? ==> r.value < Modulus(width)
  {
    if op == '+' then Some(Wrap(a + b, width))
    else if op == '-' then Some(Wrap(a - b, width))
    else if op == '*' then Some(Wrap(a * b, width))
    else if op == '/' then (if b == 0 then None else Some(Divided(a, b).0))
    else if op == '%' then (if b == 0 then None else Some(Divided(a, b).1))
    else Some(And(a, Modulus(width) - 1 - Wrap(b - 1, width)))
  }

  /** Quotient and remainder. */
  function Divided(a: nat, b: nat): (r: (nat, nat))
    requires b > 0
    ensures r.1 < b && r.0 <= a
  {
    if a < b then (0, a) else (Divided(a - b, b).0 + 1, Divided(a - b, b).1)
  }

  lemma {:induction false} DividedIs(a: nat, b: nat)
    requires b > 0
    ensures a == b * Divided(a, b).0 + Divided(a, b).1
  {
    if a >= b {
      DividedIs(a - b, b);
      OneMore(b, Divided(a - b, b).0);
    }
  }

  lemma OneMore(b: nat, q: nat)
    ensures b * (q + 1) == b * q + b
  {
  }

  function Power2(k: nat): (p: nat)
    ensures p > 0
  {
    if k == 0 then 1 else 2 * Power2(k - 1)
  }

  lemma {:induction false} PowerGrows(k: nat, n: nat)
    requires k <= n
    ensures Power2(k) <= Power2(n) && (k < n ==> Power2(k) < Power2(n))
    decreases n
  {
    if k < n {
      PowerGrows(k, n - 1);
    }
  }

  /** The `k` low bits are clear. */
  predicate Cleared(r: nat, k: nat)
  {
    k == 0 || (r % 2 == 0 && Cleared(r / 2, k - 1))
  }

  /** A mask without its `k` low bits takes a number down to one that has none of them. */
  lemma {:induction false} AndMask(a: nat, k: nat, n: nat)
    requires k <= n && a < Power2(n)
    ensures Power2(k) <= Power2(n)
    ensures var r := And(a, Power2(n) - Power2(k));
            Cleared(r, k) && r <= a < r + Power2(k)
    decreases n
  {
    PowerGrows(k, n);
    if k == 0 {
      AndAll(a, n);
    } else {
      var pn, pk := Power2(n - 1), Power2(k - 1);
      assert Power2(n) == 2 * pn && Power2(k) == 2 * pk;
      assert a / 2 < pn;
      AndMask(a / 2, k - 1, n - 1);
      AndTwice(a, k, pn, pk);
    }
  }

  lemma AndTwice(a: nat, k: nat, pn: nat, pk: nat)
    requires k > 0 && pk <= pn
    requires var r := And(a / 2, pn - pk); Cleared(r, k - 1) && r <= a / 2 < r + pk
    ensures var r := And(a, 2 * pn - 2 * pk); Cleared(r, k) && r <= a < r + 2 * pk
  {
    AndEven(a, pn - pk);
    ClearedTwice(a, And(a / 2, pn - pk), k, pk);
  }

  lemma ClearedTwice(a: nat, r: nat, k: nat, p: nat)
    requires k > 0 && Cleared(r, k - 1) && r <= a / 2 < r + p
    ensures Cleared(2 * r, k) && 2 * r <= a < 2 * r + 2 * p
  {
    assert 2 * r / 2 == r;
  }

  lemma AndEven(a: nat, b: nat)
    ensures And(a, 2 * b) == 2 * And(a / 2, b)
  {
    assert 2 * b / 2 == b && 2 * b % 2 == 0;
  }

  lemma {:induction false} AndAll(a: nat, n: nat)
    requires a < Power2(n)
    ensures And(a, Power2(n) - 1) == a
    decreases n
  {
    if a > 0 {
      AndAll(a / 2, n - 1);
    }
  }

  lemma ModulusIsPower(width: Width)
    ensures Modulus(width) == Power2(if width.Narrow? then 32 else 64)
  {
    Shifted(0, 1);
    Shifted(8, 0x100);
    Shifted(16, 0x1_0000);
    Shifted(24, 0x100_0000);
    Shifted(32, TWO_32);
    Shifted(40, 0x100 * TWO_32);
    Shifted(48, 0x1_0000 * TWO_32);
    Shifted(56, 0x100_0000 * TWO_32);
  }

  lemma Shifted(n: nat, p: nat)
    requires Power2(n) == p
    ensures Power2(n + 8) == 0x100 * p
  {
    assert Power2(n + 1) == 2 * p;
    assert Power2(n + 2) == 4 * p;
    assert Power2(n + 4) == 2 * Power2(n + 3);
    assert Power2(n + 6) == 2 * Power2(n + 5);
  }

  /** `@` rounds down to a multiple of a power of two. */
  lemma AlignRoundsDown(a: nat, k: nat, width: Width)
    requires k < (if width.Narrow? then 32 else 64) && a < Modulus(width)
    ensures Power2(k) < Modulus(width) && Operate('@', a, Power2(k), width).Some?
    ensures var r := Operate('@', a, Power2(k), width).value;
            Cleared(r, k) && r <= a < r + Power2(k)
  {
    var n := if width.Narrow? then 32 else 64;
    ModulusIsPower(width);
    PowerGrows(k, n);
    AndMask(a, k, n);
    WrapSmall(Power2(k) - 1, width);
  }

  // ----- Evaluating words

  /** How an evaluation stands; `Trap` is where the program dies. */
  datatype Turn = Go(stack: seq<string>, dictionary: Dictionary) | Fail | Trap

  /** The value of a stack entry; the dictionary holds values of the type. */
  function Resolve(token: string, d: Dictionary, width: Width): Option<nat>
  {
    match Literal(token, width)
    case Some(v) => Some(v)
    case None => if token in d && d[token] < Modulus(width) then Some(d[token]) else None
  }

  /** Where everything that can be read is a value of the type. */
  ghost predicate Bounded(d: Dictionary, memory: Option<Memory>, width: Width)
  {
    && (forall w :: w in d ==> d[w] < Modulus(width))
    && (memory.Some? ==> forall a :: memory.value(a).Some? ==> memory.value(a).value < Modulus(width))
  }

  function BinaryTurn(op: char, st: seq<string>, d: Dictionary, width: Width): Turn
    requires op in BINARY
  {
    var n := |st|;
    if n < 2 then Fail
    else
      var a, b := Resolve(st[n - 2], d, width), Resolve(st[n - 1], d, width);
      if a.None? || b.None? then Fail
      else
        match Operate(op, a.value, b.value, width)
        case None => Trap
        case Some(v) => Go(st[..n - 2] + [Print(v, 10)], d)
  }

  function DereferenceTurn(st: seq<string>, d: Dictionary, memory: Option<Memory>, width: Width): Turn
  {
    var n := |st|;
    if memory.None? || n < 1 then Fail
    else
      var a := Resolve(st[n - 1], d, width);
      if a.None? || memory.value(a.value).None? then Fail
      else Go(st[..n - 1] + [Print(memory.value(a.value).value, 10)], d)
  }

  /** Assignment: to an identifier that begins with a dollar sign. A negative literal in
      its place is negated where there is nothing to negate. */
  function AssignTurn(st: seq<string>, d: Dictionary, width: Width): Turn
  {
    var n := |st|;
    if n < 1 || Resolve(st[n - 1], d, width).None? || n < 2 then Fail
    else
      var name := st[n - 2];
      if Literal(name, width).Some? then (if name[0] == '-' then Trap else Fail)
      else if name == "" || name[0] != '$' then Fail
      else Go(st[..n - 2], d[name := Resolve(st[n - 1], d, width).value])
  }

  predicate IsBinary(token: string)
  {
    |token| == 1 && token[0] in BINARY
  }

  function TokenTurn(token: string, st: seq<string>, d: Dictionary, memory: Option<Memory>, width: Width): Turn
  {
    if IsBinary(token) then BinaryTurn(token[0], st, d, width)
    else if token == "^" then DereferenceTurn(st, d, memory, width)
    else if token == "=" then AssignTurn(st, d, width)
    else Go(st + [token], d)
  }

  /** One word; an assignment may be smashed up against the next word. */
  function WordTurn(word: string, st: seq<string>, d: Dictionary, memory: Option<Memory>, width: Width): Turn
  {
    if |word| > 1 && word[0] == '=' then
      match TokenTurn("=", st, d, memory, width)
      case Go(st1, d1) => TokenTurn(word[1..], st1, d1, memory, width)
      case other => other
    else TokenTurn(word, st, d, memory, width)
  }

  function RunWords(ws: seq<string>, st: seq<string>, d: Dictionary, memory: Option<Memory>, width: Width): Turn
    decreases |ws|
  {
    if ws == [] then Go(st, d)
    else
      match WordTurn(ws[0], st, d, memory, width)
      case Go(st1, d1) => RunWords(ws[1..], st1, d1, memory, width)
      case other => other
  }

  datatype Answer = Value(v: nat) | NoValue | Trapped

  /** `EvaluateForValue`: exactly one entry is left. */
  function AnswerOf(t: Turn, width: Width): Answer
  {
    match t
    case Fail => NoValue
    case Trap => Trapped
    case Go(st, d) =>
      if |st| != 1 then NoValue
      else match Resolve(st[0], d, width) case Some(v) => Value(v) case None => NoValue
  }

  function Evaluation(expression: string, d: Dictionary, memory: Option<Memory>, width: Width): Answer
  {
    AnswerOf(RunWords(Tokens(expression, SPACES), [], d, memory, width), width)
  }

  // ----- The evaluator

  /** What is popped: nothing, a value, an identifier; or the program has died. */
  datatype Popped = Nothing | Number(v: nat) | Identifier(name: string) | Dead

  datatype Flow = Proceed | Refuse | Die

  class PostfixEvaluator {
    var dictionary: Dictionary
    const memory: Option<Memory>
    const width: Width
    var stack: seq<string>

    constructor (d: Dictionary, memory: Option<Memory>, width: Width)
      ensures dictionary == d && this.memory == memory && this.width == width && stack == []
    {
      dictionary, this.memory, this.width, stack := d, memory, width, [];
    }

    /** `valued` tells whether there is a place for a value. */
    method PopValueOrIdentifier(valued: bool) returns (r: Popped)
      modifies this`stack
      ensures old(stack) == [] ==> r == Nothing && stack == []
      ensures old(stack) != [] ==>
                var n := |old(stack)| - 1; var token := old(stack)[n];
                && stack == old(stack)[..n]
                && match Literal(token, width)
                   case None => r == Identifier(token)
                   case Some(v) => r == if !valued && token[0] == '-' then Dead else Number(v)
    {
      if stack == [] {
        return Nothing;
      }
      var token := stack[|stack| - 1];
      stack := stack[..|stack| - 1];
      var literal := Literal(token, width);
      if literal.None? {
        r := Identifier(token);
      } else if !valued && token[0] == '-' {
        r := Dead;
      } else {
        r := Number(literal.value);
      }
    }

    method PopValue() returns (v: Option<nat>)
      modifies this`stack
      ensures old(stack) == [] ==> v == None && stack == []
      ensures old(stack) != [] ==>
                var n := |old(stack)| - 1;
                stack == old(stack)[..n] && v == Resolve(old(stack)[n], dictionary, width)
    {
      var r := PopValueOrIdentifier(true);
      match r
      case Nothing => v := None;
      case Number(x) => v := Some(x);
      case Identifier(name) =>
        v := if name in dictionary && dictionary[name] < Modulus(width) then Some(dictionary[name]) else None;
    }

    method PushValue(v: nat)
      modifies this`stack
      ensures stack == old(stack) + [Print(v, 10)]
    {
      stack := stack + [Print(v, 10)];
    }

    ghost predicate Follows(t: Turn, flow: Flow)
      reads this
    {
      match t
      case Go(st, d) => flow == Proceed && stack == st && dictionary == d
      case Fail => flow == Refuse
      case Trap => flow == Die
    }

    method EvaluateBinary(op: char) returns (flow: Flow)
      requires op in BINARY
      modifies this`stack
      ensures Follows(BinaryTurn(op, old(stack), dictionary, width), flow)
    {
      var b := PopValue();
      if b.None? {
        return Refuse;
      }
      var a := PopValue();
      if a.None? {
        return Refuse;
      }
      ResolveFits(old(stack)[|old(stack)| - 1], dictionary, width);
      ResolveFits(old(stack)[|old(stack)| - 2], dictionary, width);
      var r := Operate(op, a.value, b.value, width);
      if r.None? {
        return Die;
      }
      PushValue(r.value);
      flow := Proceed;
    }

    method EvaluateDereference() returns (flow: Flow)
      modifies this`stack
      ensures Follows(DereferenceTurn(old(stack), dictionary, memory, width), flow)
    {
      if memory.None? {
        return Refuse;
      }
      var a := PopValue();
      if a.None? || memory.value(a.value).None? {
        return Refuse;
      }
      PushValue(memory.value(a.value).value);
      flow := Proceed;
    }

    method EvaluateAssignment() returns (flow: Flow)
      modifies this`stack, this`dictionary
      ensures Follows(AssignTurn(old(stack), old(dictionary), width), flow)
    {
      var v := PopValue();
      if v.None? {
        return Refuse;
      }
      var r := PopValueOrIdentifier(false);
      match r
      case Nothing => flow := Refuse;
      case Number(_) => flow := Refuse;
      case Dead => flow := Die;
      case Identifier(name) =>
        if name == "" || name[0] != '$' {
          flow := Refuse;
        } else {
          dictionary := dictionary[name := v.value];
          flow := Proceed;
        }
    }

    method EvaluateToken(token: string) returns (flow: Flow)
      modifies this`stack, this`dictionary
      ensures Follows(TokenTurn(token, old(stack), old(dictionary), memory, width), flow)
    {
      if IsBinary(token) {
        flow := EvaluateBinary(token[0]);
      } else if token == "^" {
        flow := EvaluateDereference();
      } else if token == "=" {
        flow := EvaluateAssignment();
      } else {
        stack := stack + [token];
        flow := Proceed;
      }
    }

    method EvaluateWord(word: string) returns (flow: Flow)
      modifies this`stack, this`dictionary
      ensures Follows(WordTurn(word, old(stack), old(dictionary), memory, width), flow)
    {
      if |word| > 1 && word[0] == '=' {
        flow := EvaluateToken("=");
        if flow == Proceed {
          flow := EvaluateToken(word[1..]);
        }
      } else {
        flow := EvaluateToken(word);
      }
    }

    method EvaluateInternal(expression: string) returns (flow: Flow)
      modifies this`stack, this`dictionary
      ensures Follows(RunWords(Tokens(expression, SPACES), old(stack), old(dictionary), memory, width), flow)
    {
      var next := NextToken(expression, SPACES);
      ghost var whole := RunWords(Tokens(expression, SPACES), stack, dictionary, memory, width);
      TokensByCalls(expression, SPACES);
      flow := Proceed;
      while next.Some?
        invariant flow == Proceed
        invariant whole == RunWords(if next.None? then [] else [next.value.0] + Tokens(next.value.1, SPACES), stack, dictionary, memory, width)
        decreases if next.None? then 0 else 1 + |next.value.1|
      {
        var (word, rest) := next.value;
        assert ([word] + Tokens(rest, SPACES))[1..] == Tokens(rest, SPACES);
        flow := EvaluateWord(word);
        if flow != Proceed {
          return;
        }
        TokensByCalls(rest, SPACES);
        next := NextToken(rest, SPACES);
      }
    }

    /** Whatever happens, the stack is cleared. */
    method EvaluateForValue(expression: string) returns (r: Answer)
      requires stack == []
      modifies this`stack, this`dictionary
      ensures r == Evaluation(expression, old(dictionary), memory, width) && stack == []
    {
      var flow := EvaluateInternal(expression);
      if flow == Die {
        r := Trapped;
      } else if flow == Refuse || |stack| != 1 {
        r := NoValue;
      } else {
        var v := PopValue();
        r := if v.Some? then Value(v.value) else NoValue;
      }
      stack := [];
    }

    /** Without a value: nothing may be left, and the variables assigned are in the
        dictionary. */
    method Evaluate(expression: string) returns (flow: Flow)
      requires stack == []
      modifies this`stack, this`dictionary
      ensures var t := RunWords(Tokens(expression, SPACES), [], old(dictionary), memory, width);
              && stack == []
              && (flow == Proceed <==> t.Go? && t.stack == []) && (flow == Die <==> t.Trap?)
              && (flow == Proceed ==> dictionary == t.dictionary)
    {
      flow := EvaluateInternal(expression);
      if flow == Proceed && stack != [] {
        flow := Refuse;
      }
      stack := [];
    }
  }

  lemma ResolveFits(token: string, d: Dictionary, width: Width)
    ensures Resolve(token, d, width).Some? ==> Resolve(token, d, width).value < Modulus(width)
  {
  }

  // ----- Expressions, and what they mean

  datatype Expr =
    | Constant(n: int)
    | Variable(name: string)
    | Binary(op: char, left: Expr, right: Expr)
    | Dereference(address: Expr)

  /** A word that is neither an operator nor a literal. */
  predicate IsVariable(w: string, width: Width)
  {
    && Word(w, SPACES) && w[0] != '=' && w != "^" && !IsBinary(w)
    && Literal(w, width).None?
  }

  predicate Sensible(e: Expr, width: Width)
  {
    match e
    case Constant(n) => -1 * Modulus(width) < n < Modulus(width)
    case Variable(w) => IsVariable(w, width)
    case Binary(op, l, r) => op in BINARY && Sensible(l, width) && Sensible(r, width)
    case Dereference(a) => Sensible(a, width)
  }

  /** The expression in postfix notation. */
  function Postfix(e: Expr): seq<string>
  {
    match e
    case Constant(n) => [PrintSigned(n)]
    case Variable(w) => [w]
    case Binary(op, l, r) => Postfix(l) + Postfix(r) + [[op]]
    case Dereference(a) => Postfix(a) + ["^"]
  }

  /** An operation on operands that may be missing. */
  function Applied(op: char, a: Option<nat>, b: Option<nat>, width: Width): (v: Option<nat>)
    requires op in BINARY && (a.Some? ==> a.value < Modulus(width)) && (b.Some? ==> b.value < Modulus(width))
    ensures v.Some? ==> v.value < Modulus(width)
  {
    if a.None? || b.None? then None else Operate(op, a.value, b.value, width)
  }

  /** What memory holds at an address that may be missing; values of the type. */
  function Fetched(memory: Option<Memory>, a: Option<nat>, width: Width): (v: Option<nat>)
    ensures v.Some? ==> v.value < Modulus(width)
  {
    if a.None? || memory.None? then None
    else
      var v := memory.value(a.value);
      if v.Some? && v.value < Modulus(width) then v else None
  }

  /** What it means; nothing where a variable is not known, memory cannot be read or the
      divisor is zero. */
  function Denotes(e: Expr, d: Dictionary, memory: Option<Memory>, width: Width): (v: Option<nat>)
    requires Sensible(e, width)
    ensures v.Some? ==> v.value < Modulus(width)
  {
    match e
    case Constant(n) => Some(Wrap(n, width))
    case Variable(w) => if w in d && d[w] < Modulus(width) then Some(d[w]) else None
    case Binary(op, l, r) =>
      Applied(op, Denotes(l, d, memory, width), Denotes(r, d, memory, width), width)
    case Dereference(at) =>
      Fetched(memory, Denotes(at, d, memory, width), width)
  }

  lemma RunOne(w: string, rest: seq<string>, st: seq<string>, d: Dictionary, memory: Option<Memory>, width: Width)
    ensures var t := WordTurn(w, st, d, memory, width);
            RunWords([w] + rest, st, d, memory, width) == if t.Go? then RunWords(rest, t.stack, t.dictionary, memory, width) else t
  {
    assert ([w] + rest)[1..] == rest;
  }

  lemma DecimalIsClean(s: string)
    requires Decimal(s)
    ensures Clean(s, SPACES) && IsDigit(s[0])
  {
    forall i | 0 <= i < |s|
      ensures s[i] !in SPACES
    {
      assert IsDigit(s[i]);
    }
  }

  /** A printed number is a word that is pushed as it is. */
  lemma PrintedIsPushed(n: int)
    ensures var s := PrintSigned(n);
            Word(s, SPACES) && !IsBinary(s) && s != "^" && s != "=" && s[0] != '='
  {
    SignedText(n);
    var s := PrintSigned(n);
    if n < 0 {
      DecimalIsClean(s[1..]);
      assert s == "-" + s[1..];
    } else {
      DecimalIsClean(s);
    }
  }

  lemma PushedRuns(w: string, rest: seq<string>, st: seq<string>, d: Dictionary, memory: Option<Memory>, width: Width)
    requires w != "" && !IsBinary(w) && w != "^" && w != "=" && w[0] != '='
    ensures RunWords([w] + rest, st, d, memory, width) == RunWords(rest, st + [w], d, memory, width)
  {
    RunOne(w, rest, st, d, memory, width);
  }

  /** Evaluating the postfix form leaves one entry more, with the meaning; or fails,
      where there is none. */
  ghost predicate Leaves(
      e: Expr, rest: seq<string>, st: seq<string>, d: Dictionary, memory: Option<Memory>, width: Width, t: string, ok: bool)
    requires Sensible(e, width)
  {
    if ok then
      && Resolve(t, d, width) == Denotes(e, d, memory, width)
      && RunWords(Postfix(e) + rest, st, d, memory, width) == RunWords(rest, st + [t], d, memory, width)
    else Denotes(e, d, memory, width).None? && !RunWords(Postfix(e) + rest, st, d, memory, width).Go?
  }

  lemma {:induction false} ExpressionRuns(e: Expr, rest: seq<string>, st: seq<string>, d: Dictionary, memory: Option<Memory>, width: Width)
    returns (t: string, ok: bool)
    requires Sensible(e, width) && Bounded(d, memory, width)
    ensures Leaves(e, rest, st, d, memory, width, t, ok)
    decreases e
  {
    match e
    case Constant(n) =>
      LiteralReads(n, width);
      PrintedIsPushed(n);
      PushedRuns(PrintSigned(n), rest, st, d, memory, width);
      t, ok := PrintSigned(n), true;
    case Variable(w) =>
      PushedRuns(w, rest, st, d, memory, width);
      t, ok := w, true;
    case Dereference(a) =>
      t, ok := ExpressionRuns(a, ["^"] + rest, st, d, memory, width);
      t, ok := DereferenceLeaves(a, rest, st, d, memory, width, t, ok);
    case Binary(op, l, r) =>
      t, ok := ExpressionRuns(l, Postfix(r) + ([[op]] + rest), st, d, memory, width);
      var u, both := ExpressionRuns(r, [[op]] + rest, st + [t], d, memory, width);
      t, ok := BinaryLeaves(op, l, r, rest, st, d, memory, width, t, ok, u, both);
  }

  lemma DereferenceLeaves(
      a: Expr, rest: seq<string>, st: seq<string>, d: Dictionary, memory: Option<Memory>, width: Width, t: string, ok: bool)
    returns (u: string, fine: bool)
    requires Sensible(a, width) && Bounded(d, memory, width) && Leaves(a, ["^"] + rest, st, d, memory, width, t, ok)
    ensures Leaves(Dereference(a), rest, st, d, memory, width, u, fine)
  {
    assert Postfix(Dereference(a)) + rest == Postfix(a) + (["^"] + rest);
    u, fine := t, ok;
    if ok {
      u, fine := DereferenceRuns(t, rest, st, d, memory, width);
    }
  }

  lemma BinaryLeaves(
      op: char, l: Expr, r: Expr, rest: seq<string>, st: seq<string>, d: Dictionary, memory: Option<Memory>, width: Width,
      t: string, ok: bool, u: string, both: bool)
    returns (w: string, fine: bool)
    requires op in BINARY && Sensible(l, width) && Sensible(r, width)
    requires Leaves(l, Postfix(r) + ([[op]] + rest), st, d, memory, width, t, ok)
    requires Leaves(r, [[op]] + rest, st + [t], d, memory, width, u, both)
    ensures Leaves(Binary(op, l, r), rest, st, d, memory, width, w, fine)
  {
    var e, a, b := Binary(op, l, r), Denotes(l, d, memory, width), Denotes(r, d, memory, width);
    var after := [[op]] + rest;
    PostfixParts(Postfix(l), Postfix(r), [[op]], rest);
    assert Denotes(e, d, memory, width) == Applied(op, a, b, width);
    assert ok ==> RunWords(Postfix(e) + rest, st, d, memory, width) == RunWords(Postfix(r) + after, st + [t], d, memory, width);
    w, fine := t, false;
    if ok && both {
      w, fine := BinaryRuns(op, t, u, a, b, rest, st, d, memory, width);
    }
  }

  lemma PostfixParts(l: seq<string>, r: seq<string>, op: seq<string>, rest: seq<string>)
    ensures l + r + op + rest == l + (r + (op + rest))
  {
  }

  lemma CaretTurn(t: string, st: seq<string>, d: Dictionary, memory: Option<Memory>, width: Width)
    requires Bounded(d, memory, width)
    ensures WordTurn("^", st + [t], d, memory, width) ==
            match Fetched(memory, Resolve(t, d, width), width)
            case None => Fail
            case Some(v) => Go(st + [Print(v, 10)], d)
  {
    assert WordTurn("^", st + [t], d, memory, width) == DereferenceTurn(st + [t], d, memory, width);
    assert (st + [t])[..|st|] == st;
  }

  lemma DereferenceRuns(t: string, rest: seq<string>, st: seq<string>, d: Dictionary, memory: Option<Memory>, width: Width)
    returns (u: string, ok: bool)
    requires Bounded(d, memory, width)
    ensures var v := Fetched(memory, Resolve(t, d, width), width);
            (ok <==> v.Some?) && (ok ==> Resolve(u, d, width) == v)
    ensures ok ==> RunWords(["^"] + rest, st + [t], d, memory, width) == RunWords(rest, st + [u], d, memory, width)
    ensures !ok ==> !RunWords(["^"] + rest, st + [t], d, memory, width).Go?
  {
    var v := Fetched(memory, Resolve(t, d, width), width);
    CaretTurn(t, st, d, memory, width);
    RunOne("^", rest, st + [t], d, memory, width);
    u, ok := "", v.Some?;
    if ok {
      u := Print(v.value, 10);
      PushedReads(v.value, width);
    }
  }

  lemma OperatorTurn(
      op: char, t: string, u: string, a: Option<nat>, b: Option<nat>, st: seq<string>, d: Dictionary, memory: Option<Memory>,
      width: Width)
    requires op in BINARY && Resolve(t, d, width) == a && Resolve(u, d, width) == b
    requires (a.Some? ==> a.value < Modulus(width)) && (b.Some? ==> b.value < Modulus(width))
    ensures var w := WordTurn([op], st + [t] + [u], d, memory, width);
            match Applied(op, a, b, width)
            case None => !w.Go?
            case Some(v) => w == Go(st + [Print(v, 10)], d)
  {
    assert WordTurn([op], st + [t] + [u], d, memory, width) == BinaryTurn(op, st + [t] + [u], d, width);
    assert (st + [t] + [u])[..|st|] == st;
  }

  lemma BinaryRuns(
      op: char, t: string, u: string, a: Option<nat>, b: Option<nat>, rest: seq<string>, st: seq<string>, d: Dictionary,
      memory: Option<Memory>, width: Width)
    returns (w: string, ok: bool)
    requires op in BINARY && Resolve(t, d, width) == a && Resolve(u, d, width) == b
    requires (a.Some? ==> a.value < Modulus(width)) && (b.Some? ==> b.value < Modulus(width))
    ensures ok <==> Applied(op, a, b, width).Some?
    ensures ok ==> Resolve(w, d, width) == Applied(op, a, b, width)
    ensures ok ==> RunWords([[op]] + rest, st + [t] + [u], d, memory, width) == RunWords(rest, st + [w], d, memory, width)
    ensures !ok ==> !RunWords([[op]] + rest, st + [t] + [u], d, memory, width).Go?
  {
    OperatorTurn(op, t, u, a, b, st, d, memory, width);
    RunOne([op], rest, st + [t] + [u], d, memory, width);
    ok := Applied(op, a, b, width).Some?;
    w := "";
    if ok {
      var v := Applied(op, a, b, width).value;
      w := Print(v, 10);
      PushedReads(v, width);
    }
  }

  lemma {:induction false} PostfixIsWords(e: Expr, width: Width)
    requires Sensible(e, width)
    ensures forall i :: 0 <= i < |Postfix(e)| ==> Word(Postfix(e)[i], SPACES)
    decreases e
  {
    match e
    case Constant(n) => PrintedIsPushed(n);
    case Variable(w) =>
    case Binary(op, l, r) =>
      PostfixIsWords(l, width);
      PostfixIsWords(r, width);
    case Dereference(a) => PostfixIsWords(a, width);
  }

  /** The text of an expression evaluates to what the expression means, and to nothing
      if it means nothing. */
  lemma ExpressionMeans(e: Expr, d: Dictionary, memory: Option<Memory>, width: Width)
    requires Sensible(e, width) && Bounded(d, memory, width)
    ensures var r := Evaluation(Join(Postfix(e)), d, memory, width);
            match Denotes(e, d, memory, width)
            case Some(v) => r == Value(v)
            case None => !r.Value?
  {
    PostfixIsWords(e, width);
    TokensJoin(Postfix(e), SPACES);
    var t, ok := ExpressionRuns(e, [], [], d, memory, width);
    assert Postfix(e) + [] == Postfix(e);
    if ok {
      assert [] + [t] == [t];
      LoneAnswer(t, d, memory, width);
    }
  }

  lemma LoneAnswer(t: string, d: Dictionary, memory: Option<Memory>, width: Width)
    ensures AnswerOf(RunWords([], [t], d, memory, width), width) ==
            match Resolve(t, d, width) case Some(v) => Value(v) case None => NoValue
  {
  }

  // ----- Assignments

  /** A variable that can be assigned to. */
  predicate IsTarget(w: string)
  {
    w != "" && w[0] == '$'
  }

  lemma TargetIsNoLiteral(w: string, width: Width)
    requires IsTarget(w)
    ensures Literal(w, width).None? && !IsBinary(w) && w != "^" && w != "="
  {
    assert !IsDigit(w[0]);
  }

  /** A name, an expression and an assignment put the meaning in the dictionary, or fail
      if there is none; what is on the stack stays. */
  lemma AssignmentRuns(w: string, e: Expr, rest: seq<string>, st: seq<string>, d: Dictionary, memory: Option<Memory>, width: Width)
    requires IsTarget(w) && Sensible(e, width) && Bounded(d, memory, width)
    ensures var r := RunWords([w] + (Postfix(e) + (["="] + rest)), st, d, memory, width);
            match Denotes(e, d, memory, width)
            case Some(v) => r == RunWords(rest, st, d[w := v], memory, width)
            case None => !r.Go?
  {
    TargetIsNoLiteral(w, width);
    PushedRuns(w, Postfix(e) + (["="] + rest), st, d, memory, width);
    var t, ok := ExpressionRuns(e, ["="] + rest, st + [w], d, memory, width);
    if ok {
      EqualsTurn(w, t, st, d, memory, width);
      RunOne("=", rest, st + [w] + [t], d, memory, width);
    }
  }

  lemma EqualsTurn(w: string, t: string, st: seq<string>, d: Dictionary, memory: Option<Memory>, width: Width)
    requires IsTarget(w)
    ensures WordTurn("=", st + [w] + [t], d, memory, width) ==
            match Resolve(t, d, width)
            case Some(v) => Go(st, d[w := v])
            case None => Fail
  {
    TargetIsNoLiteral(w, width);
    assert WordTurn("=", st + [w] + [t], d, memory, width) == AssignTurn(st + [w] + [t], d, width);
    assert (st + [w] + [t])[..|st|] == st;
  }

  /** An assignment smashed up against the next word is one before it. */
  lemma SmashedRuns(w: string, rest: seq<string>, st: seq<string>, d: Dictionary, memory: Option<Memory>, width: Width)
    requires w != "" && w[0] != '='
    ensures RunWords(["=" + w] + rest, st, d, memory, width) == RunWords(["="] + ([w] + rest), st, d, memory, width)
  {
    RunOne("=" + w, rest, st, d, memory, width);
    RunOne("=", [w] + rest, st, d, memory, width);
    assert ("=" + w)[1..] == w;
    var t := TokenTurn("=", st, d, memory, width);
    if t.Go? {
      RunOne(w, rest, t.stack, t.dictionary, memory, width);
    }
  }
}
