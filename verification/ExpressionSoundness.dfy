/** Whatever the machine accepts is a well-grouped input: a run is followed on a second
    stack that holds the trees read so far instead of their values. */
module ExpressionSoundness {
  import opened ExpressionGrammar
  import opened ExpressionMachine

  datatype Node =
    | Tree(e: Expr)
    | Pending(op: MatOperator)
    | Opened(isFunction: bool, name: string, sign: Sign)
    | Separator

  datatype Forest = Ground | Grow(top: Node, below: Forest)

  /** Each node stands for the stack item at its height. */
  predicate Stands(f: Forest, s: Stack) {
    match f
    case Ground => s == Bottom
    case Grow(node, below) =>
      && s.Push?
      && Stands(below, s.below)
      && match node
         case Tree(_) => s.top.Val?
         case Pending(op) => s.top == Oper(op)
         case Opened(isFunction, name, sign) => s.top == Bracket(isFunction, name, sign == Minus)
         case Separator => s.top == Semi
  }

  predicate TreeTop(f: Forest) { f.Grow? && f.top.Tree? }
  predicate PendingTop(f: Forest) { f.Grow? && f.top.Pending? }

  /** Operands and operators alternate; pending operators do not come before the next one;
      every tree fits the operators next to it; no operator is pending under a semicolon. */
  predicate Shaped(f: Forest) {
    match f
    case Ground => true
    case Grow(Tree(e), below) =>
      && Shaped(below) && !TreeTop(below) && Grouped(e)
      && (PendingTop(below) ==> RightFits(below.top.op, e))
    case Grow(Pending(op), below) =>
      && Shaped(below) && TreeTop(below) && LeftFits(below.top.e, op)
      && (PendingTop(below.below) ==> !Reduces(below.below.top.op, op))
    case Grow(Opened(isFunction, _, sign), below) =>
      && Shaped(below) && !TreeTop(below)
      && (PendingTop(below) && below.top.op == ShortMul ==> isFunction && sign == NoSign)
    case Grow(Separator, below) =>
      Shaped(below) && TreeTop(below) && !PendingTop(below.below)
  }

  function PrintForest(f: Forest, rest: Tokens): Tokens {
    match f
    case Ground => rest
    case Grow(Tree(e), below) => PrintForest(below, Print(e, rest))
    case Grow(Pending(op), below) => PrintForest(below, PrintOperator(op, rest))
    case Grow(Opened(isFunction, name, sign), below) =>
      PrintForest(below, PrintSign(sign, Cons(if isFunction then Call(name) else Open, rest)))
    case Grow(Separator, below) => PrintForest(below, Cons(Semicolon, rest))
  }

  /** `RollUpVal` on trees. */
  function Join(e: Expr, below: Forest): Forest
    decreases below
  {
    match below
    case Grow(Pending(op), Grow(Tree(l), rest)) => Join(Bin(op, l, e), rest)
    case _ => Grow(Tree(e), below)
  }

  /** `PushOperator` on trees. */
  function JoinFor(op: MatOperator, e: Expr, below: Forest): Forest
    decreases below
  {
    match below
    case Grow(Pending(pending), Grow(Tree(l), rest)) =>
      if Reduces(pending, op) then JoinFor(op, Bin(pending, l, e), rest)
      else Grow(Pending(op), Grow(Tree(e), below))
    case _ => Grow(Pending(op), Grow(Tree(e), below))
  }

  lemma {:induction false} JoinKeeps(env: Env, e: Expr, b: Value, below: Forest, s: Stack, rest: Tokens)
    requires Shaped(Grow(Tree(e), below)) && Stands(below, s)
    requires RollUpVal(env, b, s).Ok?
    ensures Stands(Join(e, below), RollUpVal(env, b, s).value)
    ensures Shaped(Join(e, below)) && TreeTop(Join(e, below)) && !PendingTop(Join(e, below).below)
    ensures PrintForest(Join(e, below), rest) == PrintForest(below, Print(e, rest))
    decreases below
  {
    if PendingTop(below) {
      var op, l, deeper := below.top.op, below.below.top.e, below.below.below;
      assert Shaped(below) && Shaped(below.below);
      JoinKeeps(env, Bin(op, l, e), env.Apply(op, s.below.top.v, b).value, deeper, s.below.below, rest);
    }
  }

  lemma {:induction false} JoinForKeeps(env: Env, op: MatOperator, e: Expr, b: Value,
                                        below: Forest, s: Stack, rest: Tokens)
    requires Shaped(Grow(Tree(e), below)) && Stands(below, s) && LeftFits(e, op)
    requires PushOperator(env, op, b, s).Ok?
    ensures Stands(JoinFor(op, e, below), PushOperator(env, op, b, s).value)
    ensures Shaped(JoinFor(op, e, below)) && PendingTop(JoinFor(op, e, below))
    ensures JoinFor(op, e, below).top.op == op
    ensures PrintForest(JoinFor(op, e, below), rest) == PrintForest(below, Print(e, PrintOperator(op, rest)))
    decreases below
  {
    if PendingTop(below) && Reduces(below.top.op, op) {
      var pending, l, deeper := below.top.op, below.below.top.e, below.below.below;
      assert Shaped(below) && Shaped(below.below);
      JoinForKeeps(env, op, Bin(pending, l, e), env.Apply(pending, s.below.top.v, b).value,
                   deeper, s.below.below, rest);
    }
  }

  // ---------- brackets ----------

  /** `rest` preceded by the parameters that follow the current one. */
  function PrintLater(later: Exprs, rest: Tokens): Tokens {
    if later == NoExprs then rest else Cons(Semicolon, PrintList(later, rest))
  }

  function Count(es: Exprs): nat { if es == NoExprs then 0 else 1 + Count(es.tail) }

  /** `Parameters` on trees. */
  function Arguments(f: Forest, later: Exprs): (Exprs, Forest)
    decreases f
  {
    match f
    case Grow(Tree(e), Grow(Separator, below)) => Arguments(below, MoreExprs(e, later))
    case Grow(Tree(e), below) => (MoreExprs(e, later), below)
    case _ => (later, f)
  }

  lemma {:induction false} ArgumentsKeep(f: Forest, s: Stack, later: Exprs, vs: seq<Value>, rest: Tokens)
    requires Shaped(f) && Stands(f, s) && TreeTop(f) && !PendingTop(f.below) && GroupedList(later)
    requires Parameters(s, vs).Ok?
    ensures var (es, below) := Arguments(f, later);
            && GroupedList(es) && es != NoExprs
            && Count(es) - Count(later) == |Parameters(s, vs).value.0| - |vs|
            && Shaped(below) && below.Grow? && below.top.Opened? && Stands(below, Parameters(s, vs).value.1)
            && PrintForest(f, PrintLater(later, rest)) == PrintForest(below, PrintList(es, rest))
    decreases f
  {
    var e := f.top.e;
    assert Shaped(f.below);
    assert PrintList(MoreExprs(e, later), rest) == Print(e, PrintLater(later, rest));
    if f.below.Grow? && f.below.top.Separator? {
      assert Shaped(f.below.below);
      ArgumentsKeep(f.below.below, s.below.below, MoreExprs(e, later), [s.top.v] + vs, rest);
    }
  }

  /** Closing a bracket turns it and its arguments into one operand. */
  lemma CloseKeeps(env: Env, f: Forest, s: Stack, rest: Tokens) returns (g: Forest)
    requires Shaped(f) && Stands(f, s)
    requires CloseBracket(env, s).Ok?
    ensures Shaped(g) && TreeTop(g) && !g.top.e.Bin? && Stands(g, CloseBracket(env, s).value)
    ensures PrintForest(g, rest) == PrintForest(f, Cons(Close, rest))
  {
    if s.top.Bracket? {
      g := Grow(Tree(Fn(f.top.sign, f.top.name, NoExprs)), f.below);
      assert PrintList(NoExprs, Cons(Close, rest)) == Cons(Close, rest);
    } else {
      JoinKeeps(env, f.top.e, s.top.v, f.below, s.below, Cons(Close, rest));
      var joined, rolled := Join(f.top.e, f.below), RollUp(env, s).value;
      ArgumentsKeep(joined, rolled, NoExprs, [], Cons(Close, rest));
      var (es, bracket) := Arguments(joined, NoExprs);
      var b := bracket.top;
      if b.isFunction {
        g := Grow(Tree(Fn(b.sign, b.name, es)), bracket.below);
      } else {
        g := Grow(Tree(Paren(b.sign, es.head)), bracket.below);
        assert es == MoreExprs(es.head, NoExprs);
      }
    }
  }

  // ---------- whole runs ----------

  /** A clear stack is a list of expressions. */
  lemma {:induction false} ClearIsList(f: Forest, s: Stack, later: Exprs, tail: Tokens) returns (es: Exprs)
    requires Shaped(f) && Stands(f, s) && Clear(s) && TreeTop(f) && GroupedList(later)
    ensures GroupedList(es) && es != NoExprs
    ensures PrintList(es, tail) == PrintForest(f, PrintLater(later, tail))
    decreases f
  {
    es := MoreExprs(f.top.e, later);
    assert Shaped(f.below) && Clear(s.below);
    assert PrintList(es, tail) == Print(f.top.e, PrintLater(later, tail));
    if f.below.Grow? {
      assert f.below.top.Separator?;
      es := ClearIsList(f.below.below, s.below.below, es, tail);
    }
  }

  lemma FinishIsInput(env: Env, f: Forest, s: Stack) returns (es: Exprs, trailing: bool)
    requires Shaped(f) && Stands(f, s) && Finish(env, s).Ok?
    ensures GroupedList(es) && es != NoExprs && PrintInput(es, trailing) == PrintForest(f, End)
  {
    trailing := !TreeTop(f);
    if trailing {
      assert f.top.Separator?;
      es := ClearIsList(f.below, s.below, NoExprs, Cons(Semicolon, End));
    } else {
      JoinKeeps(env, f.top.e, s.top.v, f.below, s.below, End);
      es := ClearIsList(Join(f.top.e, f.below), RollUp(env, s).value, NoExprs, End);
    }
  }

  lemma {:induction false} OperandIsInput(env: Env, ts: Tokens, s: Stack, f: Forest)
    returns (es: Exprs, trailing: bool)
    requires Shaped(f) && Stands(f, s) && !TreeTop(f)
    requires PendingTop(f) && f.top.op == ShortMul ==> AtName(ts)
    requires RunOperand(env, ts, s).Ok?
    ensures GroupedList(es) && es != NoExprs && PrintInput(es, trailing) == PrintForest(f, ts)
    decreases Length(ts), if AtClose(ts) then 1 else 0
  {
    var sign, after := SignOf(ts), AfterSign(ts);
    assert ts == PrintSign(sign, after);
    if after == End {
      es, trailing := FinishIsInput(env, f, s);
    } else if after.head.Close? {
      es, trailing := OperatorIsInput(env, ts, s, f);
    } else if after.head.Open? || after.head.Call? {
      var isFunction, name := after.head.Call?, if after.head.Call? then after.head.name else "";
      es, trailing := OperandIsInput(env, after.tail, Push(Bracket(isFunction, name, sign == Minus), s),
                                     Grow(Opened(isFunction, name, sign), f));
    } else if after.head.Number? {
      var e := Num(sign, after.head.value);
      es, trailing := OperatorIsInput(env, after.tail, Push(Val(Eval(env, e).value), s), Grow(Tree(e), f));
    } else {
      var e := Var(sign, after.head.name);
      es, trailing := OperatorIsInput(env, after.tail, Push(Val(Eval(env, e).value), s), Grow(Tree(e), f));
    }
  }

  lemma {:induction false} OperatorIsInput(env: Env, ts: Tokens, s: Stack, f: Forest)
    returns (es: Exprs, trailing: bool)
    requires Shaped(f) && Stands(f, s)
    requires AtClose(ts) || (TreeTop(f) && !f.top.e.Bin?)
    requires RunOperator(env, ts, s).Ok?
    ensures GroupedList(es) && es != NoExprs && PrintInput(es, trailing) == PrintForest(f, ts)
    decreases Length(ts), if AtName(ts) then 1 else 0
  {
    if ts == End {
      es, trailing := FinishIsInput(env, f, s);
    } else if ts.head.Close? {
      var g := CloseKeeps(env, f, s, ts.tail);
      es, trailing := OperatorIsInput(env, ts.tail, CloseBracket(env, s).value, g);
    } else if ts.head.Semicolon? {
      JoinKeeps(env, f.top.e, s.top.v, f.below, s.below, ts);
      es, trailing := OperandIsInput(env, ts.tail, Push(Semi, RollUp(env, s).value),
                                     Grow(Separator, Join(f.top.e, f.below)));
    } else {
      var op := if ts.head.Operator? then ts.head.op else ShortMul;
      var rest := if ts.head.Operator? then ts.tail else ts;
      JoinForKeeps(env, op, f.top.e, s.top.v, f.below, s.below, rest);
      es, trailing := OperandIsInput(env, rest, PushOperatorOn(env, op, s).value, JoinFor(op, f.top.e, f.below));
    }
  }

  /** The machine accepts a token string exactly when some grouping of it that respects the
      priority table has values throughout, and then returns those values. */
  lemma RunIffGrouped(env: Env, ts: Tokens, vs: seq<Value>)
    ensures Run(env, ts) == Ok(vs) <==>
            exists es, trailing :: GroupedList(es) && es != NoExprs
                                   && PrintInput(es, trailing) == ts && EvalList(env, es) == Ok(vs)
  {
    if Run(env, ts) == Ok(vs) {
      var es, trailing := OperandIsInput(env, ts, Bottom, Ground);
      RunIsEval(env, es, trailing);
      assert PrintInput(es, trailing) == ts;
    }
    if es, trailing :| GroupedList(es) && es != NoExprs
                       && PrintInput(es, trailing) == ts && EvalList(env, es) == Ok(vs) {
      RunIsEval(env, es, trailing);
    }
  }

  /** No token string has two groupings with different outcomes. */
  lemma GroupingIsUnambiguous(env: Env, es: Exprs, fs: Exprs, t: bool, u: bool)
    requires GroupedList(es) && GroupedList(fs) && es != NoExprs && fs != NoExprs
    requires PrintInput(es, t) == PrintInput(fs, u)
    ensures EvalList(env, es) == EvalList(env, fs)
  {
    RunIsEval(env, es, t);
    RunIsEval(env, fs, u);
  }
}
