/** The expression language of the ttmath parser: its tokens, its priority table, and
    what an expression means. Nothing here mentions a stack: this is the reference the
    shift-reduce machine in `ExpressionMachine` is compared with. */
module ExpressionGrammar {

  /** The number type is a parameter of the source's template; only the operations in
      `Env` are used on it. */
  type Value(!new)

  datatype Error =
    | UnexpectedEnd | UnexpectedFinalBracket | UnexpectedSemicolon
    | UnknownCharacter | UnknownOperator | UnknownVariable | UnknownFunction
    | NothingHasRead | StackNotClear | InternalError
    | ImproperAmountOfArguments | MustBeOnlyOneValue
    | VariableLoop | FunctionsLoop
    | Overflow | DivisionByZero | ImproperArgument

  datatype Result<+T> = Ok(value: T) | Err(error: Error) {
    predicate IsFailure() { Err? }
    function PropagateFailure<U>(): Result<U> requires Err? { Err(error) }
    function Extract(): T requires Ok? { value }
  }

  datatype MatOperator =
    | Or | And | Eq | Ne | Lt | Gt | Le | Ge | Add | Sub | Mul | Div | Pow | ShortMul

  function Priority(op: MatOperator): nat {
    match op
    case Or => 4
    case And => 5
    case Eq | Ne | Lt | Gt | Le | Ge => 7
    case Add | Sub => 10
    case Mul | Div | ShortMul => 12
    case Pow => 14
  }

  predicate RightAssociative(op: MatOperator) { op == Pow }

  /** A pending `left` is carried out before a following `right`. */
  predicate Reduces(left: MatOperator, right: MatOperator) {
    || Priority(left) > Priority(right)
    || (Priority(left) == Priority(right) && !RightAssociative(left))
  }

  /** `Call(f)` is a name directly followed by its opening bracket. */
  datatype Token =
    | Number(value: Value)
    | Name(name: string)
    | Call(name: string)
    | Open
    | Close
    | Semicolon
    | Operator(op: MatOperator)

  /** The rest of the input at the reading pointer, up to the terminating zero. */
  datatype Tokens = End | Cons(head: Token, tail: Tokens)

  datatype Sign = NoSign | Plus | Minus

  datatype Expr =
    | Num(sign: Sign, value: Value)
    | Var(sign: Sign, name: string)
    | Paren(sign: Sign, inner: Expr)
    | Fn(sign: Sign, name: string, args: Exprs)
    | Bin(op: MatOperator, left: Expr, right: Expr)

  datatype Exprs = NoExprs | MoreExprs(head: Expr, tail: Exprs)

  // ---------- concrete syntax ----------

  function PrintSign(s: Sign, rest: Tokens): Tokens {
    match s
    case NoSign => rest
    case Plus => Cons(Operator(Add), rest)
    case Minus => Cons(Operator(Sub), rest)
  }

  function PrintOperator(op: MatOperator, rest: Tokens): Tokens {
    if op == ShortMul then rest else Cons(Operator(op), rest)
  }

  /** The tokens of `e`, followed by `rest`. */
  function Print(e: Expr, rest: Tokens): Tokens
    decreases e
  {
    match e
    case Num(s, v) => PrintSign(s, Cons(Number(v), rest))
    case Var(s, n) => PrintSign(s, Cons(Name(n), rest))
    case Paren(s, inner) => PrintSign(s, Cons(Open, Print(inner, Cons(Close, rest))))
    case Fn(s, f, args) => PrintSign(s, Cons(Call(f), PrintList(args, Cons(Close, rest))))
    case Bin(op, l, r) => Print(l, PrintOperator(op, Print(r, rest)))
  }

  function PrintList(es: Exprs, rest: Tokens): Tokens
    decreases es
  {
    match es
    case NoExprs => rest
    case MoreExprs(e, NoExprs) => Print(e, rest)
    case MoreExprs(e, more) => Print(e, Cons(Semicolon, PrintList(more, rest)))
  }

  /** The leftmost operand is an unsigned name, so a multiplication sign may be left out. */
  predicate StartsWithName(e: Expr) {
    match e
    case Num(_, _) | Paren(_, _) => false
    case Var(s, _) => s == NoSign
    case Fn(s, _, _) => s == NoSign
    case Bin(_, l, _) => StartsWithName(l)
  }

  /** `l op r` needs no brackets around `l`. */
  predicate LeftFits(l: Expr, op: MatOperator) { l.Bin? ==> Reduces(l.op, op) }

  /** `l op r` needs no brackets around `r`. */
  predicate RightFits(op: MatOperator, r: Expr) {
    && (r.Bin? ==> !Reduces(op, r.op))
    && (op == ShortMul ==> StartsWithName(r))
  }

  /** The tree groups its operators as the priority table does. */
  predicate Grouped(e: Expr)
    decreases e
  {
    match e
    case Num(_, _) | Var(_, _) => true
    case Paren(_, inner) => Grouped(inner)
    case Fn(_, _, args) => GroupedList(args)
    case Bin(op, l, r) => Grouped(l) && Grouped(r) && LeftFits(l, op) && RightFits(op, r)
  }

  predicate GroupedList(es: Exprs)
    decreases es
  {
    match es
    case NoExprs => true
    case MoreExprs(e, more) => Grouped(e) && GroupedList(more)
  }

  /** A whole input: expressions separated by semicolons; one more may follow the last. */
  function PrintInput(es: Exprs, trailing: bool): Tokens {
    PrintList(es, if trailing then Cons(Semicolon, End) else End)
  }

  // ---------- meaning ----------

  /** What names and operators stand for while one string is evaluated. */
  datatype Env = Env(
    variable: string -> Result<Value>,
    call: (string, seq<Value>) -> Result<Value>,
    arithmetic: (MatOperator, Value, Value) -> Result<Value>,
    negate: Value -> Value)
  {
    /** Multiplication by juxtaposition is multiplication. */
    function Apply(op: MatOperator, a: Value, b: Value): Result<Value> {
      arithmetic(if op == ShortMul then Mul else op, a, b)
    }

    function Signed(s: Sign, v: Value): Value {
      if s == Minus then negate(v) else v
    }

    function SignedResult(s: Sign, r: Result<Value>): Result<Value> {
      var v :- r;
      Ok(Signed(s, v))
    }
  }

  /** The value of a tree: operands left to right, operators after their operands. */
  function Eval(env: Env, e: Expr): Result<Value>
    decreases e
  {
    match e
    case Num(s, v) => Ok(env.Signed(s, v))
    case Var(s, n) => env.SignedResult(s, env.variable(n))
    case Paren(s, inner) => env.SignedResult(s, Eval(env, inner))
    case Fn(s, f, args) =>
      var vs :- EvalList(env, args);
      env.SignedResult(s, env.call(f, vs))
    case Bin(op, l, r) =>
      var a :- Eval(env, l);
      var b :- Eval(env, r);
      env.Apply(op, a, b)
  }

  function EvalList(env: Env, es: Exprs): Result<seq<Value>>
    decreases es
  {
    match es
    case NoExprs => Ok([])
    case MoreExprs(e, more) =>
      var v :- Eval(env, e);
      var vs :- EvalList(env, more);
      Ok([v] + vs)
  }
}
