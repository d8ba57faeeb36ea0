/** The shift-reduce machine as a function of the input and the stack, and its agreement
    with the grammar. The class in `ExpressionParser` carries the machine out in place. */
module ExpressionMachine {
  import opened ExpressionGrammar

  /** A stack item. A bracket remembers the function it belongs to and the sign before it. */
  datatype Item =
    | Val(v: Value)
    | Oper(op: MatOperator)
    | Bracket(isFunction: bool, function_name: string, sign: bool)
    | Semi

  datatype Stack = Bottom | Push(top: Item, below: Stack)

  // ---------- the steps ----------

  /** Carries out every pending operator down to a bracket, a semicolon or the bottom. */
  function RollUp(env: Env, s: Stack): Result<Stack> {
    match s
    case Push(Val(b), below) => RollUpVal(env, b, below)
    case _ => Ok(s)
  }

  /** `RollUp` with the value `b` on top of `below`. */
  function RollUpVal(env: Env, b: Value, below: Stack): Result<Stack>
    decreases below
  {
    match below
    case Push(Oper(op), Push(Val(a), rest)) =>
      var v :- env.Apply(op, a, b);
      RollUpVal(env, v, rest)
    case _ => Ok(Push(Val(b), below))
  }

  /** Pushes operator `op` on a stack whose top is the value `b` over `below`, first carrying
      out the pending operators that come before it. */
  function PushOperator(env: Env, op: MatOperator, b: Value, below: Stack): Result<Stack>
    decreases below
  {
    match below
    case Push(Oper(pending), Push(Val(a), rest)) =>
      if Reduces(pending, op) then
        var v :- env.Apply(pending, a, b);
        PushOperator(env, op, v, rest)
      else Ok(Push(Oper(op), Push(Val(b), below)))
    case _ => Ok(Push(Oper(op), Push(Val(b), below)))
  }

  function PushOperatorOn(env: Env, op: MatOperator, s: Stack): Result<Stack> {
    match s
    case Push(Val(b), below) => PushOperator(env, op, b, below)
    case _ => Ok(Push(Oper(op), s))
  }

  /** The parameters of the innermost bracket and the stack from that bracket down. */
  function Parameters(s: Stack, later: seq<Value>): Result<(seq<Value>, Stack)>
    decreases s
  {
    match s
    case Push(Val(v), Push(Semi, below)) => Parameters(below, [v] + later)
    case Push(Val(v), Push(Bracket(f, n, g), below)) => Ok(([v] + later, s.below))
    case Push(Val(v), _) => Err(UnexpectedFinalBracket)
    case Bottom => Err(UnexpectedFinalBracket)
    case Push(_, Bottom) => Err(UnexpectedFinalBracket)
    case _ => Err(InternalError)
  }

  function BracketParameters(s: Stack): Result<(seq<Value>, Stack)> {
    match s
    case Bottom => Err(UnexpectedFinalBracket)
    case Push(Bracket(_, _, _), _) => Ok(([], s))
    case _ => Parameters(s, [])
  }

  /** The value of a closed bracket with parameters `vs`. */
  function BracketValue(env: Env, b: Item, vs: seq<Value>): Result<Value>
    requires b.Bracket?
  {
    var sign := if b.sign then Minus else NoSign;
    if b.isFunction then env.SignedResult(sign, env.call(b.function_name, vs))
    else if |vs| == 0 then Err(UnexpectedFinalBracket)
    else if |vs| != 1 then Err(UnexpectedSemicolon)
    else Ok(env.Signed(sign, vs[0]))
  }

  function CloseBracket(env: Env, s: Stack): Result<Stack> {
    if !(s.Push? && (s.top.Val? || s.top.Bracket?)) then Err(UnexpectedFinalBracket)
    else
      var rolled :- RollUp(env, s);
      ReplaceBracket(env, rolled)
  }

  /** Puts the value of the innermost bracket in its place. */
  function ReplaceBracket(env: Env, s: Stack): Result<Stack> {
    var found :- BracketParameters(s);
    if found.1.Push? && found.1.top.Bracket? then
      var v :- BracketValue(env, found.1.top, found.0);
      Ok(Push(Val(v), found.1.below))
    else Err(InternalError)
  }

  /** Only values and semicolons are left. */
  predicate Clear(s: Stack) {
    match s
    case Bottom => true
    case Push(item, below) => (item.Val? || item.Semi?) && Clear(below)
  }

  /** The values on the stack from the bottom up. */
  function Values(s: Stack): seq<Value> {
    match s
    case Bottom => []
    case Push(Val(v), below) => Values(below) + [v]
    case Push(_, below) => Values(below)
  }

  function Finish(env: Env, s: Stack): Result<seq<Value>> {
    if s == Bottom then Err(NothingHasRead)
    else
      var rolled :- RollUp(env, s);
      if Clear(rolled) then Ok(Values(rolled)) else Err(StackNotClear)
  }

  function SignOf(ts: Tokens): Sign {
    match ts
    case Cons(Operator(Add), _) => Plus
    case Cons(Operator(Sub), _) => Minus
    case _ => NoSign
  }

  function Length(ts: Tokens): nat {
    match ts
    case End => 0
    case Cons(_, rest) => 1 + Length(rest)
  }

  function AfterSign(ts: Tokens): (r: Tokens)
    ensures Length(r) == Length(ts) - if SignOf(ts) == NoSign then 0 else 1
  {
    match ts
    case Cons(Operator(Add), rest) => rest
    case Cons(Operator(Sub), rest) => rest
    case _ => ts
  }

  predicate AtClose(ts: Tokens) { ts.Cons? && ts.head.Close? }
  predicate AtName(ts: Tokens) { ts.Cons? && (ts.head.Name? || ts.head.Call?) }

  /** The machine where an operand is expected. */
  function RunOperand(env: Env, ts: Tokens, s: Stack): Result<seq<Value>>
    decreases Length(ts), if AtClose(ts) then 3 else 1
  {
    RunSigned(env, SignOf(ts), AfterSign(ts), s)
  }

  /** The machine after an optional sign. */
  function RunSigned(env: Env, sign: Sign, ts: Tokens, s: Stack): Result<seq<Value>>
    decreases Length(ts), if AtClose(ts) then 2 else 0
  {
    match ts
    case End => if sign == NoSign then Finish(env, s) else Err(UnexpectedEnd)
    case Cons(Open, rest) => RunOperand(env, rest, Push(Bracket(false, "", sign == Minus), s))
    case Cons(Call(f), rest) => RunOperand(env, rest, Push(Bracket(true, f, sign == Minus), s))
    case Cons(Close, _) =>
      if sign == NoSign then RunOperator(env, ts, s) else Err(UnexpectedFinalBracket)
    case Cons(Number(v), rest) => RunOperator(env, rest, Push(Val(env.Signed(sign, v)), s))
    case Cons(Name(n), rest) =>
      var v :- env.SignedResult(sign, env.variable(n));
      RunOperator(env, rest, Push(Val(v), s))
    case _ => Err(UnknownCharacter)
  }

  /** The machine where an operator is expected. */
  function RunOperator(env: Env, ts: Tokens, s: Stack): Result<seq<Value>>
    decreases Length(ts), if AtName(ts) then 3 else 1
  {
    match ts
    case End => Finish(env, s)
    case Cons(Close, rest) =>
      var t :- CloseBracket(env, s);
      RunOperator(env, rest, t)
    case Cons(Semicolon, rest) =>
      if s == Bottom then Err(NothingHasRead)
      else
        var t :- RollUp(env, s);
        RunOperand(env, rest, Push(Semi, t))
    case Cons(Name(_), _) | Cons(Call(_), _) =>
      var t :- PushOperatorOn(env, ShortMul, s);
      RunOperand(env, ts, t)
    case Cons(Operator(op), rest) =>
      if op == ShortMul then Err(UnknownOperator)
      else
        var t :- PushOperatorOn(env, op, s);
        RunOperand(env, rest, t)
    case _ => Err(UnknownOperator)
  }

  /** Parsing a whole input. */
  function Run(env: Env, ts: Tokens): Result<seq<Value>> { RunOperand(env, ts, Bottom) }

  // ---------- every well-grouped input is evaluated to its trees' values ----------

  /** What reading `e` leaves on top of `s`: its right spine, still unreduced. */
  function Spine(env: Env, e: Expr, s: Stack): (r: Result<Stack>)
    ensures r.Ok? ==> r.value.Push? && r.value.top.Val?
    decreases e
  {
    if e.Bin? then
      var a :- Eval(env, e.left);
      Spine(env, e.right, Push(Oper(e.op), Push(Val(a), s)))
    else
      var v :- Eval(env, e);
      Ok(Push(Val(v), s))
  }

  /** Rolling a spine up yields the value of its tree, with the tree's own first error. */
  lemma {:induction false} RollUpSpine(env: Env, e: Expr, s: Stack)
    ensures match Spine(env, e, s)
            case Err(x) => Eval(env, e) == Err(x)
            case Ok(t) => RollUp(env, t) == match Eval(env, e)
                                            case Err(x) => Err(x)
                                            case Ok(b) => RollUpVal(env, b, s)
    decreases e
  {
    if e.Bin? && Eval(env, e.left).Ok? {
      RollUpSpine(env, e.right, Push(Oper(e.op), Push(Val(Eval(env, e.left).value), s)));
    }
  }

  /** An operator that follows a tree it does not belong into reduces exactly that tree. */
  lemma {:induction false} PushOperatorSpine(env: Env, e: Expr, op: MatOperator, s: Stack)
    requires Grouped(e) && LeftFits(e, op)
    ensures match Spine(env, e, s)
            case Err(x) => Eval(env, e) == Err(x)
            case Ok(t) => PushOperatorOn(env, op, t) == match Eval(env, e)
                                                        case Err(x) => Err(x)
                                                        case Ok(b) => PushOperator(env, op, b, s)
    decreases e
  {
    if e.Bin? && Eval(env, e.left).Ok? {
      PushOperatorSpine(env, e.right, op, Push(Oper(e.op), Push(Val(Eval(env, e.left).value), s)));
    }
  }

  /** The operator pending on `s`, if any, does not come before the operator of `e`. */
  predicate Awaits(s: Stack, e: Expr) {
    s.Push? && s.top.Oper? && e.Bin? ==> !Reduces(s.top.op, e.op)
  }

  lemma PrintStartsWithName(e: Expr, rest: Tokens)
    requires StartsWithName(e)
    ensures AtName(Print(e, rest))
    decreases e
  {
    if e.Bin? { PrintStartsWithName(e.left, PrintOperator(e.op, Print(e.right, rest))); }
  }

  /** Values separated by semicolons, pushed on `s`. */
  function PushAll(vs: seq<Value>, s: Stack): Stack {
    if |vs| == 0 then s
    else if |vs| == 1 then Push(Val(vs[0]), s)
    else PushAll(vs[1..], Push(Semi, Push(Val(vs[0]), s)))
  }

  lemma {:induction false} RollUpPushAll(env: Env, vs: seq<Value>, s: Stack)
    requires s.Push? && (s.top.Bracket? || s.top.Semi?)
    ensures RollUp(env, PushAll(vs, s)) == Ok(PushAll(vs, s))
    ensures |vs| > 0 ==> PushAll(vs, s).Push? && PushAll(vs, s).top.Val?
  {
    if |vs| > 1 { RollUpPushAll(env, vs[1..], Push(Semi, Push(Val(vs[0]), s))); }
  }

  lemma {:induction false} ParametersPushAll(vs: seq<Value>, s: Stack, later: seq<Value>)
    requires |vs| > 0 && s.Push? && (s.top.Bracket? || s.top.Semi?)
    ensures Parameters(PushAll(vs, s), later) ==
            if s.top.Bracket? then Ok((vs + later, s)) else Parameters(s.below, vs + later)
  {
    if |vs| == 1 {
      assert vs + later == [vs[0]] + later;
    } else {
      ParametersPushAll(vs[1..], Push(Semi, Push(Val(vs[0]), s)), later);
      assert [vs[0]] + (vs[1..] + later) == vs + later;
    }
  }

  lemma CloseArguments(env: Env, vs: seq<Value>, s: Stack)
    requires s.Push? && s.top.Bracket?
    ensures CloseBracket(env, PushAll(vs, s)) ==
            match BracketValue(env, s.top, vs)
            case Err(x) => Err(x)
            case Ok(v) => Ok(Push(Val(v), s.below))
  {
    RollUpPushAll(env, vs, s);
    if |vs| > 0 {
      ParametersPushAll(vs, s, []);
      assert vs + [] == vs;
    }
  }

  /** Reading `e` where an operand is expected leaves its spine on the stack. */
  lemma {:induction false} RunPrint(env: Env, e: Expr, rest: Tokens, s: Stack)
    requires Grouped(e) && Awaits(s, e)
    ensures ReadsAs(env, e, rest, s)
    decreases e, 1
  {
    match e
    case Num(_, _) =>
    case Var(_, _) =>
    case Paren(_, _) => RunPrintParen(env, e, rest, s);
    case Fn(_, _, _) => RunPrintFn(env, e, rest, s);
    case Bin(_, _, _) => RunPrintBin(env, e, rest, s);
  }

  ghost predicate ReadsAs(env: Env, e: Expr, rest: Tokens, s: Stack) {
    RunOperand(env, Print(e, rest), s) ==
    match Spine(env, e, s)
    case Err(x) => Err(x)
    case Ok(t) => RunOperator(env, rest, t)
  }

  lemma {:induction false} RunPrintParen(env: Env, e: Expr, rest: Tokens, s: Stack)
    requires e.Paren? && Grouped(e)
    ensures ReadsAs(env, e, rest, s)
    decreases e, 0
  {
    var inside := Push(Bracket(false, "", e.sign == Minus), s);
    RunPrint(env, e.inner, Cons(Close, rest), inside);
    RollUpSpine(env, e.inner, inside);
    assert RunOperand(env, Print(e, rest), s) == RunOperand(env, Print(e.inner, Cons(Close, rest)), inside);
  }

  lemma {:induction false} RunPrintFn(env: Env, e: Expr, rest: Tokens, s: Stack)
    requires e.Fn? && Grouped(e)
    ensures ReadsAs(env, e, rest, s)
    decreases e, 0
  {
    var inside := Push(Bracket(true, e.name, e.sign == Minus), s);
    RunPrintArguments(env, e.args, rest, inside);
    if EvalList(env, e.args).Ok? { CloseArguments(env, EvalList(env, e.args).value, inside); }
    assert RunOperand(env, Print(e, rest), s) == RunOperand(env, PrintList(e.args, Cons(Close, rest)), inside);
  }

  lemma {:induction false} RunPrintBin(env: Env, e: Expr, rest: Tokens, s: Stack)
    requires e.Bin? && Grouped(e) && Awaits(s, e)
    ensures ReadsAs(env, e, rest, s)
    decreases e, 0
  {
    var middle := Print(e.right, rest);
    if e.op == ShortMul { PrintStartsWithName(e.right, rest); }
    RunPrint(env, e.left, PrintOperator(e.op, middle), s);
    PushOperatorSpine(env, e.left, e.op, s);
    if Eval(env, e.left).Ok? {
      var a := Eval(env, e.left).value;
      var pushed := Push(Oper(e.op), Push(Val(a), s));
      RunPrint(env, e.right, rest, pushed);
      assert PushOperator(env, e.op, a, s) == Ok(pushed);
    }
  }

  /** Up to the closing bracket, an argument list leaves its values on the stack. */
  lemma {:induction false} RunPrintArguments(env: Env, es: Exprs, rest: Tokens, s: Stack)
    requires GroupedList(es) && s.Push? && (es == NoExprs ==> s.top.Bracket?)
    requires s.top.Bracket? || s.top.Semi?
    ensures RunOperand(env, PrintList(es, Cons(Close, rest)), s) ==
            match EvalList(env, es)
            case Err(x) => Err(x)
            case Ok(vs) => RunOperator(env, Cons(Close, rest), PushAll(vs, s))
    decreases es
  {
    match es
    case NoExprs =>
    case MoreExprs(e, NoExprs) =>
      RunPrint(env, e, Cons(Close, rest), s);
      RollUpSpine(env, e, s);
    case MoreExprs(e, more) =>
      RunPrint(env, e, Cons(Semicolon, PrintList(more, Cons(Close, rest))), s);
      RollUpSpine(env, e, s);
      if Eval(env, e).Ok? {
        var v := Eval(env, e).value;
        RunPrintArguments(env, more, rest, Push(Semi, Push(Val(v), s)));
        if EvalList(env, more).Ok? { assert ([v] + EvalList(env, more).value)[1..] == EvalList(env, more).value; }
      }
  }

  /** The last expression, with or without a semicolon behind it. */
  lemma RunPrintLast(env: Env, e: Expr, trailing: bool, s: Stack)
    requires Grouped(e) && Clear(s) && (s.Push? ==> s.top.Semi?)
    ensures RunOperand(env, Print(e, if trailing then Cons(Semicolon, End) else End), s) ==
            match Eval(env, e)
            case Err(x) => Err(x)
            case Ok(v) => Ok(Values(s) + [v])
  {
    RollUpSpine(env, e, s);
    RunPrint(env, e, if trailing then Cons(Semicolon, End) else End, s);
    if Eval(env, e).Ok? {
      var v := Eval(env, e).value;
      assert Clear(Push(Val(v), s)) && Values(Push(Val(v), s)) == Values(s) + [v];
      assert Finish(env, Push(Semi, Push(Val(v), s))) == Ok(Values(s) + [v]);
      assert RunOperand(env, End, Push(Semi, Push(Val(v), s))) == Ok(Values(s) + [v]);
    }
  }

  lemma {:induction false} RunPrintInput(env: Env, es: Exprs, trailing: bool, s: Stack)
    requires GroupedList(es) && es != NoExprs
    requires Clear(s) && (s.Push? ==> s.top.Semi?)
    ensures RunOperand(env, PrintInput(es, trailing), s) ==
            match EvalList(env, es)
            case Err(x) => Err(x)
            case Ok(vs) => Ok(Values(s) + vs)
    decreases es
  {
    var tail := if trailing then Cons(Semicolon, End) else End;
    match es
    case MoreExprs(e, NoExprs) =>
      RunPrintLast(env, e, trailing, s);
      assert EvalList(env, NoExprs) == Ok([]);
      if Eval(env, e).Ok? { assert [Eval(env, e).value] + [] == [Eval(env, e).value]; }
    case MoreExprs(e, more) =>
      RollUpSpine(env, e, s);
      RunPrint(env, e, Cons(Semicolon, PrintList(more, tail)), s);
      if Eval(env, e).Ok? {
        var v := Eval(env, e).value;
        RunPrintInput(env, more, trailing, Push(Semi, Push(Val(v), s)));
        if EvalList(env, more).Ok? {
          var vs := EvalList(env, more).value;
          assert Values(s) + [v] + vs == Values(s) + ([v] + vs);
        }
      }
  }

  /** Every grouping of an input that respects the priority table is what the machine
      computes, down to the first error. */
  lemma RunIsEval(env: Env, es: Exprs, trailing: bool)
    requires GroupedList(es) && es != NoExprs
    ensures Run(env, PrintInput(es, trailing)) == EvalList(env, es)
  {
    RunPrintInput(env, es, trailing, Bottom);
    if EvalList(env, es).Ok? { assert [] + EvalList(env, es).value == EvalList(env, es).value; }
  }
}
