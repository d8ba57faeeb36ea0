/** How operators bind, without the priority table: the classes of operators from the loosest to
    the tightest, and what the machine yields for every chain of operands. */
module ExpressionBinding {
  import opened ExpressionGrammar
  import opened ExpressionMachine

  const COMPARISONS := {Eq, Ne, Lt, Gt, Le, Ge}
  const SUMS := {Add, Sub}
  const PRODUCTS := {Mul, Div, ShortMul}

  /** In `x p y q z` the left operator is carried out first. */
  predicate LeftFirst(p: MatOperator, q: MatOperator) {
    || q == Or
    || (q == And && p != Or)
    || (q in COMPARISONS && p !in {Or, And})
    || (q in SUMS && p in SUMS + PRODUCTS + {Pow})
    || (q in PRODUCTS && p in PRODUCTS + {Pow})
  }

  lemma TableIsLeftFirst(p: MatOperator, q: MatOperator)
    ensures Reduces(p, q) <==> LeftFirst(p, q)
  {
  }

  /** The operator the machine carries out last: everything before it comes before it, and
      everything behind it comes before it too. */
  predicate IsLast(ops: seq<MatOperator>, k: nat) {
    && k < |ops|
    && (forall i :: 0 <= i < k ==> LeftFirst(ops[i], ops[k]))
    && (forall i :: k < i < |ops| ==> !LeftFirst(ops[k], ops[i]))
  }

  lemma OneLast(ops: seq<MatOperator>, k: nat, m: nat)
    requires IsLast(ops, k) && IsLast(ops, m)
    ensures k == m
  {
    if k < m { NotBoth(ops, k, m); }
    if m < k { NotBoth(ops, m, k); }
  }

  lemma NotBoth(ops: seq<MatOperator>, k: nat, m: nat)
    requires IsLast(ops, m) && k < m
    ensures !IsLast(ops, k)
  {
    hide LeftFirst;
    assert LeftFirst(ops[k], ops[m]);
  }

  lemma LeftFirstOrder(p: MatOperator, q: MatOperator, r: MatOperator)
    ensures LeftFirst(p, q) && LeftFirst(q, r) ==> LeftFirst(p, r)
    ensures !LeftFirst(p, q) && !LeftFirst(q, r) ==> !LeftFirst(p, r)
  {
  }

  function Last(ops: seq<MatOperator>): (k: nat)
    requires ops != []
    ensures IsLast(ops, k)
  {
    if |ops| == 1 then 0
    else
      var j := Last(ops[1..]);
      assert forall i :: 0 < i < |ops| ==> ops[i] == ops[1..][i - 1];
      if LeftFirst(ops[0], ops[j + 1]) then j + 1
      else
        FirstIsLast(ops, j);
        0
  }

  lemma {:induction false} FirstIsLast(ops: seq<MatOperator>, j: nat)
    requires |ops| > 1 && IsLast(ops[1..], j) && !LeftFirst(ops[0], ops[j + 1])
    ensures IsLast(ops, 0)
  {
    hide LeftFirst;
    forall i | 0 < i < |ops| ensures !LeftFirst(ops[0], ops[i]) {
      assert ops[i] == ops[1..][i - 1] && ops[j + 1] == ops[1..][j];
      LeftFirstOrder(ops[0], ops[i], ops[j + 1]);
      LeftFirstOrder(ops[0], ops[j + 1], ops[i]);
    }
  }

  // ---------- chains ----------

  /** Operands with operators between them; a multiplication sign may be left out before a name. */
  predicate IsChain(xs: seq<Expr>, ops: seq<MatOperator>) {
    && |xs| == |ops| + 1
    && (forall i :: 0 <= i < |xs| ==> !xs[i].Bin? && Grouped(xs[i]))
    && (forall i :: 0 <= i < |ops| && ops[i] == ShortMul ==> StartsWithName(xs[i + 1]))
  }

  function PrintChain(xs: seq<Expr>, ops: seq<MatOperator>, rest: Tokens): Tokens
    requires |xs| == |ops| + 1
    decreases |ops|
  {
    if ops == [] then Print(xs[0], rest)
    else Print(xs[0], PrintOperator(ops[0], PrintChain(xs[1..], ops[1..], rest)))
  }

  function One(r: Result<Value>): Result<seq<Value>> {
    match r
    case Err(x) => Err(x)
    case Ok(v) => Ok([v])
  }

  /** The outcome of `l op r` from the outcomes of `l` and `r`. */
  function Combined(env: Env, op: MatOperator, l: Result<seq<Value>>, r: Result<seq<Value>>): Result<seq<Value>> {
    match (l, r)
    case (Err(x), _) => Err(x)
    case (Ok(_), Err(x)) => Err(x)
    case (Ok(a), Ok(b)) =>
      if |a| != 1 || |b| != 1 then Err(InternalError)
      else
        var v :- env.arithmetic(if op == ShortMul then Mul else op, a[0], b[0]);
        Ok([v])
  }

  /** For every chain: its last operator splits it, and its outcome is that operator applied to
      the outcomes of the two parts, with the error of the left part first. */
  lemma {:induction false} ChainSplits(env: Env, xs: seq<Expr>, ops: seq<MatOperator>, k: nat)
    requires IsChain(xs, ops) && IsLast(ops, k)
    ensures Run(env, PrintChain(xs, ops, End)) ==
            Combined(env, ops[k], Run(env, PrintChain(xs[..k + 1], ops[..k], End)),
                     Run(env, PrintChain(xs[k + 1..], ops[k + 1..], End)))
  {
    hide Run, Grouped, Print, IsLast, Last, IsChain, PrintChain, Eval, Tree, Combined, One, BinValue;
    ShapeOf(xs, ops, k);
    PartsAreChains(xs, ops, k);
    TreeRuns(env, xs, ops);
    TreeRuns(env, xs[..k + 1], ops[..k]);
    TreeRuns(env, xs[k + 1..], ops[k + 1..]);
    TreeSplits(env, xs, ops, k);
    CombinedOnes(env, ops[k], Eval(env, Tree(xs[..k + 1], ops[..k])), Eval(env, Tree(xs[k + 1..], ops[k + 1..])));
  }

  lemma ShapeOf(xs: seq<Expr>, ops: seq<MatOperator>, k: nat)
    requires IsChain(xs, ops) && IsLast(ops, k)
    ensures |xs| == |ops| + 1 && k < |ops|
  {
  }

  lemma TreeSplits(env: Env, xs: seq<Expr>, ops: seq<MatOperator>, k: nat)
    requires |xs| == |ops| + 1 && k < |ops| && IsLast(ops, k)
    ensures Eval(env, Tree(xs, ops)) ==
            BinValue(env, ops[k], Eval(env, Tree(xs[..k + 1], ops[..k])), Eval(env, Tree(xs[k + 1..], ops[k + 1..])))
  {
    hide IsLast, Eval, Tree, BinValue;
    OneLast(ops, k, Last(ops));
    TreeValue(env, xs, ops);
  }

  lemma CombinedOnes(env: Env, op: MatOperator, l: Result<Value>, r: Result<Value>)
    ensures Combined(env, op, One(l), One(r)) == One(BinValue(env, op, l, r))
  {
  }

  lemma {:induction false} PartsAreChains(xs: seq<Expr>, ops: seq<MatOperator>, k: nat)
    requires IsChain(xs, ops) && k < |ops|
    ensures IsChain(xs[..k + 1], ops[..k]) && IsChain(xs[k + 1..], ops[k + 1..])
  {
    hide Grouped;
    var ys, os := xs[k + 1..], ops[k + 1..];
    assert forall i :: 0 <= i < |ys| ==> ys[i] == xs[k + 1 + i];
    assert forall i :: 0 <= i < |os| ==> os[i] == ops[k + 1 + i];
  }

  function Tree(xs: seq<Expr>, ops: seq<MatOperator>): (e: Expr)
    requires |xs| == |ops| + 1
    ensures ops != [] ==> e.Bin? && e.op == ops[Last(ops)]
    ensures ops == [] ==> e == xs[0]
    decreases |ops|
  {
    if ops == [] then xs[0]
    else
      var k := Last(ops);
      Bin(ops[k], Tree(xs[..k + 1], ops[..k]), Tree(xs[k + 1..], ops[k + 1..]))
  }

  lemma {:induction false} TreeValue(env: Env, xs: seq<Expr>, ops: seq<MatOperator>)
    requires |xs| == |ops| + 1 && ops != []
    ensures var k := Last(ops);
      k < |ops| && Eval(env, Tree(xs, ops)) == BinValue(env, ops[k], Eval(env, Tree(xs[..k + 1], ops[..k])),
                                           Eval(env, Tree(xs[k + 1..], ops[k + 1..])))
  {
    hide Last, Eval, IsLast;
    var k := Last(ops);
    InRange(ops);
    BinEval(env, ops[k], Tree(xs[..k + 1], ops[..k]), Tree(xs[k + 1..], ops[k + 1..]));
  }

  function BinValue(env: Env, op: MatOperator, l: Result<Value>, r: Result<Value>): Result<Value> {
    var a :- l;
    var b :- r;
    env.arithmetic(if op == ShortMul then Mul else op, a, b)
  }

  lemma {:induction false} TreePrints(xs: seq<Expr>, ops: seq<MatOperator>, rest: Tokens)
    requires |xs| == |ops| + 1
    ensures Print(Tree(xs, ops), rest) == PrintChain(xs, ops, rest)
    decreases |ops|
  {
    hide Print, Last, PrintOperator, IsLast, PrintChain;
    if ops == [] {
      ChainOfOne(xs, rest);
    } else {
      var k := Last(ops);
      InRange(ops);
      var right := PrintOperator(ops[k], PrintChain(xs[k + 1..], ops[k + 1..], rest));
      TreePrints(xs[k + 1..], ops[k + 1..], rest);
      TreePrints(xs[..k + 1], ops[..k], right);
      PrintBin(ops[k], Tree(xs[..k + 1], ops[..k]), Tree(xs[k + 1..], ops[k + 1..]), rest);
      ChainJoins(xs, ops, k, rest);
    }
  }

  lemma InRange(ops: seq<MatOperator>)
    requires ops != []
    ensures Last(ops) < |ops|
  {
  }

  lemma ChainOfOne(xs: seq<Expr>, rest: Tokens)
    requires |xs| == 1
    ensures PrintChain(xs, [], rest) == Print(xs[0], rest)
  {
  }

  lemma PrintBin(op: MatOperator, l: Expr, r: Expr, rest: Tokens)
    ensures Print(Bin(op, l, r), rest) == Print(l, PrintOperator(op, Print(r, rest)))
  {
  }

  lemma {:induction false} ChainJoins(xs: seq<Expr>, ops: seq<MatOperator>, k: nat, rest: Tokens)
    requires |xs| == |ops| + 1 && k < |ops|
    ensures PrintChain(xs, ops, rest) ==
            PrintChain(xs[..k + 1], ops[..k], PrintOperator(ops[k], PrintChain(xs[k + 1..], ops[k + 1..], rest)))
    decreases k
  {
    hide Print;
    if k > 0 {
      ChainJoins(xs[1..], ops[1..], k - 1, rest);
      assert xs[1..][..k] == xs[..k + 1][1..] && ops[1..][..k - 1] == ops[..k][1..];
      assert xs[1..][k..] == xs[k + 1..] && ops[1..][k..] == ops[k + 1..];
    }
  }

  lemma {:induction false} TreeIsGrouped(xs: seq<Expr>, ops: seq<MatOperator>)
    requires IsChain(xs, ops)
    ensures Grouped(Tree(xs, ops)) && (StartsWithName(xs[0]) ==> StartsWithName(Tree(xs, ops)))
    decreases |ops|
  {
    hide Grouped, Reduces, LeftFirst, Last;
    if ops != [] {
      var k := Last(ops);
      PartsAreChains(xs, ops, k);
      TreeIsGrouped(xs[..k + 1], ops[..k]);
      TreeIsGrouped(xs[k + 1..], ops[k + 1..]);
      var l, r := Tree(xs[..k + 1], ops[..k]), Tree(xs[k + 1..], ops[k + 1..]);
      if k > 0 { TableIsLeftFirst(l.op, ops[k]); }
      if k + 1 < |ops| {
        assert r.op == ops[k + 1 + Last(ops[k + 1..])];
        TableIsLeftFirst(ops[k], r.op);
      }
      BinIsGrouped(ops[k], l, r);
    }
  }

  lemma BinIsGrouped(op: MatOperator, l: Expr, r: Expr)
    requires Grouped(l) && Grouped(r) && (l.Bin? ==> Reduces(l.op, op)) && (r.Bin? ==> !Reduces(op, r.op))
    requires op == ShortMul ==> StartsWithName(r)
    ensures Grouped(Bin(op, l, r)) && (StartsWithName(Bin(op, l, r)) <==> StartsWithName(l))
  {
  }

  lemma {:induction false} TreeRuns(env: Env, xs: seq<Expr>, ops: seq<MatOperator>)
    requires IsChain(xs, ops)
    ensures Run(env, PrintChain(xs, ops, End)) ==
            One(Eval(env, Tree(xs, ops)))
  {
    hide Run, Grouped;
    var e := Tree(xs, ops);
    TreeIsGrouped(xs, ops);
    TreePrints(xs, ops, End);
    OneIsEval(env, e);
  }

  lemma {:induction false} OneIsEval(env: Env, e: Expr)
    requires Grouped(e)
    ensures Run(env, Print(e, End)) == One(Eval(env, e))
  {
    hide Run, Eval;
    var es := MoreExprs(e, NoExprs);
    assert GroupedList(NoExprs) && GroupedList(es) by { ListOfOne(e); }
    RunIsEval(env, es, false);
    assert PrintInput(es, false) == Print(e, End);
    assert EvalList(env, NoExprs) == Ok([]);
    if Eval(env, e).Ok? { assert [Eval(env, e).value] + [] == [Eval(env, e).value]; }
  }

  lemma ListOfOne(e: Expr)
    requires Grouped(e)
    ensures GroupedList(NoExprs) && GroupedList(MoreExprs(e, NoExprs))
  {
  }

  // ---------- operands ----------

  function Negated(env: Env, minus: bool, r: Result<seq<Value>>): Result<seq<Value>> {
    match r
    case Ok(vs) => if |vs| == 1 && minus then Ok([env.negate(vs[0])]) else r
    case Err(_) => r
  }

  function SignTokens(sign: Sign, rest: Tokens): Tokens {
    match sign
    case NoSign => rest
    case Plus => Cons(Operator(Add), rest)
    case Minus => Cons(Operator(Sub), rest)
  }

  /** A sign belongs to its operand: it negates a number, a name, a bracket or the value of a call. */
  lemma {:induction false} OperandsRun(env: Env, sign: Sign, v: Value, n: string)
    ensures Run(env, SignTokens(sign, Cons(Number(v), End))) == Negated(env, sign == Minus, Ok([v]))
    ensures Run(env, SignTokens(sign, Cons(Name(n), End))) == Negated(env, sign == Minus, One(env.variable(n)))
  {
    OneIsEval(env, Num(sign, v));
    OneIsEval(env, Var(sign, n));
  }

  /** A bracket yields what is inside, whatever surrounds it. */
  lemma {:induction false} BracketRuns(env: Env, sign: Sign, e: Expr)
    requires Grouped(e)
    ensures Run(env, SignTokens(sign, Cons(Open, Print(e, Cons(Close, End))))) ==
            Negated(env, sign == Minus, Run(env, Print(e, End)))
  {
    hide Run;
    OneIsEval(env, e);
    OneIsEval(env, Paren(sign, e));
  }

  /** A call gets the values of its arguments in order. */
  lemma {:induction false} CallRuns(env: Env, sign: Sign, f: string, es: Exprs)
    requires GroupedList(es) && es != NoExprs
    ensures Run(env, SignTokens(sign, Cons(Call(f), PrintList(es, Cons(Close, End))))) ==
            match Run(env, PrintList(es, End))
            case Err(x) => Err(x)
            case Ok(vs) => Negated(env, sign == Minus, One(env.call(f, vs)))
  {
    hide Run, EvalList, PrintList;
    RunIsEval(env, es, false);
    OneIsEval(env, Fn(sign, f, es));
  }

  // ---------- three operands ----------

  /** `a p b q c` for every pair of operators that can be written. */
  lemma {:induction false} ThreeOperands(env: Env, a: Value, p: MatOperator, b: Value, q: MatOperator, c: Value)
    requires p != ShortMul && q != ShortMul
    ensures Run(env, Cons(Number(a), Cons(Operator(p), Cons(Number(b), Cons(Operator(q), Cons(Number(c), End)))))) ==
            if q == Or || (q == And && p != Or) || (q in {Eq, Ne, Lt, Gt, Le, Ge} && p !in {Or, And})
               || (q in {Add, Sub} && p in {Add, Sub, Mul, Div, Pow}) || (q in {Mul, Div} && p in {Mul, Div, Pow})
            then LeftThenRight(env, a, p, b, q, c) else RightThenLeft(env, a, p, b, q, c)
  {
    hide Run, Reduces;
    ThreeRun(env, Num(NoSign, a), p, Num(NoSign, b), q, Num(NoSign, c), a, b, c);
  }

  /** Three operands with values. */
  lemma {:induction false} ThreeRun(env: Env, x: Expr, p: MatOperator, y: Expr, q: MatOperator, z: Expr,
                                    a: Value, b: Value, c: Value)
    requires IsChain([x, y, z], [p, q]) && Eval(env, x) == Ok(a) && Eval(env, y) == Ok(b) && Eval(env, z) == Ok(c)
    ensures Run(env, Print(x, PrintOperator(p, Print(y, PrintOperator(q, Print(z, End)))))) ==
            var p', q' := if p == ShortMul then Mul else p, if q == ShortMul then Mul else q;
            if LeftFirst(p, q) then LeftThenRight(env, a, p', b, q', c) else RightThenLeft(env, a, p', b, q', c)
  {
    TreeOfThree(env, x, p, y, q, z);
    hide Run, Print, LeftFirst, IsChain, Eval;
    BinEval(env, p, x, y);
    BinEval(env, q, y, z);
    BinEval(env, q, Bin(p, x, y), z);
    BinEval(env, p, x, Bin(q, y, z));
  }

  function LeftThenRight(env: Env, a: Value, p: MatOperator, b: Value, q: MatOperator, c: Value): Result<seq<Value>> {
    var v :- env.arithmetic(p, a, b);
    One(env.arithmetic(q, v, c))
  }

  function RightThenLeft(env: Env, a: Value, p: MatOperator, b: Value, q: MatOperator, c: Value): Result<seq<Value>> {
    var v :- env.arithmetic(q, b, c);
    One(env.arithmetic(p, a, v))
  }

  lemma BinEval(env: Env, op: MatOperator, l: Expr, r: Expr)
    ensures Eval(env, Bin(op, l, r)) == BinValue(env, op, Eval(env, l), Eval(env, r))
  {
  }

  lemma {:induction false} TreeOfThree(env: Env, x: Expr, p: MatOperator, y: Expr, q: MatOperator, z: Expr)
    requires IsChain([x, y, z], [p, q])
    ensures Run(env, Print(x, PrintOperator(p, Print(y, PrintOperator(q, Print(z, End)))))) ==
            One(Eval(env, if LeftFirst(p, q) then Bin(q, Bin(p, x, y), z) else Bin(p, x, Bin(q, y, z))))
  {
    hide Run, Eval, LeftFirst, Reduces, Print, Grouped;
    assert [x, y, z][0] == x && [x, y, z][1] == y && [x, y, z][2] == z && [p, q][0] == p && [p, q][1] == q;
    TableIsLeftFirst(p, q);
    var e := if LeftFirst(p, q) then Bin(q, Bin(p, x, y), z) else Bin(p, x, Bin(q, y, z));
    BinIsGrouped(p, x, y);
    BinIsGrouped(q, y, z);
    if LeftFirst(p, q) {
      BinIsGrouped(q, Bin(p, x, y), z);
      PrintBin(p, x, y, PrintOperator(q, Print(z, End)));
      PrintBin(q, Bin(p, x, y), z, End);
    } else {
      BinIsGrouped(p, x, Bin(q, y, z));
      PrintBin(q, y, z, End);
      PrintBin(p, x, Bin(q, y, z), End);
    }
    OneIsEval(env, e);
  }

  /** A name right behind a number is a factor: it binds like a multiplication. */
  lemma {:induction false} JuxtaposedFirst(env: Env, a: Value, n: string, q: MatOperator, c: Value)
    requires q != ShortMul && env.variable(n).Ok?
    ensures Run(env, Cons(Number(a), Cons(Name(n), Cons(Operator(q), Cons(Number(c), End))))) ==
            if q == Pow then RightThenLeft(env, a, Mul, env.variable(n).value, q, c)
            else LeftThenRight(env, a, Mul, env.variable(n).value, q, c)
  {
    hide Run, Reduces;
    ThreeRun(env, Num(NoSign, a), ShortMul, Var(NoSign, n), q, Num(NoSign, c), a, env.variable(n).value, c);
  }

  lemma {:induction false} JuxtaposedLast(env: Env, a: Value, p: MatOperator, b: Value, n: string)
    requires p != ShortMul && env.variable(n).Ok?
    ensures Run(env, Cons(Number(a), Cons(Operator(p), Cons(Number(b), Cons(Name(n), End))))) ==
            if p in {Mul, Div, Pow} then LeftThenRight(env, a, p, b, Mul, env.variable(n).value)
            else RightThenLeft(env, a, p, b, Mul, env.variable(n).value)
  {
    hide Run, Reduces;
    ThreeRun(env, Num(NoSign, a), p, Num(NoSign, b), ShortMul, Var(NoSign, n), a, b, env.variable(n).value);
  }
}
