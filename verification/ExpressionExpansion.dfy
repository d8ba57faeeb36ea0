/** User-defined variables and functions: a name is expanded by evaluating its definition
    with the name added to the visited set. */
module ExpressionExpansion {
  import opened ExpressionGrammar
  import opened ExpressionMachine
  import opened ExpressionSoundness
  import DecimalDigits

  /** The tables of a parser. `builtin` is the table of mathematical functions together with
      its lookup, `constants` the table of built-in variables. */
  datatype Definitions = Definitions(
    variables: map<string, Tokens>,
    functions: map<string, Tokens>,
    parameters: map<string, nat>,
    constants: map<string, Value>,
    builtin: (string, seq<Value>) -> Result<Value>,
    arithmetic: (MatOperator, Value, Value) -> Result<Value>,
    negate: Value -> Value)
  {
    predicate Valid() { functions.Keys == parameters.Keys }
  }

  /** The names that may still be expanded. */
  function Unvisited(d: Definitions, vars: set<string>, funs: set<string>): nat {
    |d.variables.Keys - vars| + |d.functions.Keys - funs|
  }

  lemma VisitShrinks(d: Definitions, vars: set<string>, funs: set<string>, name: string)
    ensures name in d.variables && name !in vars ==> Unvisited(d, vars + {name}, funs) < Unvisited(d, vars, funs)
    ensures name in d.functions && name !in funs ==> Unvisited(d, vars, funs + {name}) < Unvisited(d, vars, funs)
  {
    if name in d.variables && name !in vars { MarkShrinks(d.variables.Keys, vars, name); }
    if name in d.functions && name !in funs { MarkShrinks(d.functions.Keys, funs, name); }
  }

  lemma MarkShrinks(names: set<string>, marked: set<string>, name: string)
    requires name in names - marked
    ensures |names - (marked + {name})| < |names - marked|
  {
    var rest := names - marked;
    assert names - (marked + {name}) == rest - {name};
  }

  // ---------- local variables of a function ----------

  function LocalName(i: nat): string { "x" + DecimalDigits.DigitsOf(i) }

  /** A table insertion, which never replaces an entry. */
  function Insert(m: map<string, Value>, k: string, v: Value): map<string, Value> {
    if k in m then m else m[k := v]
  }

  /** `x` and `x1`, ..., `xn` for the first `n` of the arguments. */
  function Locals(args: seq<Value>, n: nat): map<string, Value>
    requires n <= |args|
  {
    if |args| == 0 then map[]
    else if n == 0 then map["x" := args[0]]
    else Insert(Locals(args, n - 1), LocalName(n), args[n - 1])
  }

  // ---------- expansion ----------

  function OneValue(r: Result<seq<Value>>): Result<Value> {
    var vs :- r;
    if |vs| == 1 then Ok(vs[0]) else Err(MustBeOnlyOneValue)
  }

  /** The value of the string `body` that defines `name`, evaluated with `name` marked as visited. */
  function Expand(d: Definitions, variable: bool, name: string, body: Tokens, locals: map<string, Value>,
                  vars: set<string>, funs: set<string>): Result<Value>
    requires d.Valid() && if variable then name in d.variables else name in d.functions
    decreases Unvisited(d, vars, funs), 0
  {
    if variable && name in vars then Err(VariableLoop)
    else if !variable && name in funs then Err(FunctionsLoop)
    else
      VisitShrinks(d, vars, funs, name);
      OneValue(Run(EnvAt(d, locals, if variable then vars + {name} else vars,
                         if variable then funs else funs + {name}), body))
  }

  function VariableValue(d: Definitions, locals: map<string, Value>, vars: set<string>, funs: set<string>,
                         name: string): Result<Value>
    requires d.Valid()
    decreases Unvisited(d, vars, funs), 1
  {
    if name in locals then Ok(locals[name])
    else if name in d.variables then Expand(d, true, name, d.variables[name], map[], vars, funs)
    else if name in d.constants then Ok(d.constants[name])
    else Err(UnknownVariable)
  }

  function CallValue(d: Definitions, vars: set<string>, funs: set<string>, name: string, args: seq<Value>)
    : Result<Value>
    requires d.Valid()
    decreases Unvisited(d, vars, funs), 1
  {
    if name in d.functions then
      if d.parameters[name] != |args| then Err(ImproperAmountOfArguments)
      else Expand(d, false, name, d.functions[name], Locals(args, |args|), vars, funs)
    else d.builtin(name, args)
  }

  function EnvAt(d: Definitions, locals: map<string, Value>, vars: set<string>, funs: set<string>): Env
    requires d.Valid()
    decreases Unvisited(d, vars, funs), 2
  {
    Env(n => VariableValue(d, locals, vars, funs, n),
        (f, args) => CallValue(d, vars, funs, f, args),
        d.arithmetic, d.negate)
  }

  // ---------- arguments reach the right names ----------

  lemma NamesDiffer(a: nat, b: nat)
    requires LocalName(a) == LocalName(b)
    ensures a == b
  {
    assert DecimalDigits.DigitsOf(a) == LocalName(a)[1..] && DecimalDigits.DigitsOf(b) == LocalName(b)[1..];
    DecimalDigits.DigitsBack(a);
    DecimalDigits.DigitsBack(b);
  }

  lemma {:induction false} LocalsBind(args: seq<Value>, n: nat, i: nat)
    requires 0 < |args| && 1 <= i <= n <= |args|
    ensures LocalName(i) in Locals(args, n) && Locals(args, n)[LocalName(i)] == args[i - 1]
    ensures "x" in Locals(args, n) && Locals(args, n)["x"] == args[0]
    decreases n
  {
    LocalsFrame(args, n - 1);
    if LocalName(n) in Locals(args, n - 1) {
      var j :| 1 <= j <= n - 1 && LocalName(n) == LocalName(j);
      NamesDiffer(n, j);
    }
    if i < n { LocalsBind(args, n - 1, i); }
  }

  lemma {:induction false} LocalsFrame(args: seq<Value>, n: nat)
    requires 0 < |args| && n <= |args|
    ensures forall k :: k in Locals(args, n) ==> k == "x" || exists j :: 1 <= j <= n && k == LocalName(j)
    ensures "x" in Locals(args, n) && Locals(args, n)["x"] == args[0]
    ensures forall j: nat {:trigger LocalName(j)} :: LocalName(j) != "x"
  {
    forall j: nat ensures LocalName(j) != "x" { DecimalDigits.DigitsBack(j); }
    if n > 0 { LocalsFrame(args, n - 1); }
  }

  // ---------- the loop check never changes a value ----------

  /** Wherever `weak` yields a value, `strong` yields the same one. */
  ghost predicate Extends(weak: Env, strong: Env) {
    && weak.arithmetic == strong.arithmetic && weak.negate == strong.negate
    && (forall n :: weak.variable(n).Ok? ==> strong.variable(n) == weak.variable(n))
    && (forall f, args :: weak.call(f, args).Ok? ==> strong.call(f, args) == weak.call(f, args))
  }

  lemma {:induction false} EvalExtends(weak: Env, strong: Env, e: Expr)
    requires Extends(weak, strong)
    ensures Eval(weak, e).Ok? ==> Eval(strong, e) == Eval(weak, e)
    decreases e
  {
    match e
    case Num(_, _) =>
    case Var(_, _) =>
    case Paren(_, inner) => EvalExtends(weak, strong, inner);
    case Fn(_, _, args) => EvalListExtends(weak, strong, args);
    case Bin(_, l, r) =>
      EvalExtends(weak, strong, l);
      EvalExtends(weak, strong, r);
  }

  lemma {:induction false} EvalListExtends(weak: Env, strong: Env, es: Exprs)
    requires Extends(weak, strong)
    ensures EvalList(weak, es).Ok? ==> EvalList(strong, es) == EvalList(weak, es)
    decreases es
  {
    if es != NoExprs {
      EvalExtends(weak, strong, es.head);
      EvalListExtends(weak, strong, es.tail);
    }
  }

  lemma RunExtends(weak: Env, strong: Env, ts: Tokens)
    requires Extends(weak, strong)
    ensures Run(weak, ts).Ok? ==> Run(strong, ts) == Run(weak, ts)
  {
    if Run(weak, ts).Ok? {
      var es, trailing := OperandIsInput(weak, ts, Bottom, Ground);
      RunIsEval(weak, es, trailing);
      RunIsEval(strong, es, trailing);
      EvalListExtends(weak, strong, es);
    }
  }

  /** A value obtained with some names marked as visited is the value obtained with fewer
      marked: the marks only turn endless expansions into errors. */
  lemma {:induction false} VisitedIsTransparent(d: Definitions, locals: map<string, Value>,
      vars: set<string>, funs: set<string>, fewerVars: set<string>, fewerFuns: set<string>)
    requires d.Valid() && fewerVars <= vars && fewerFuns <= funs
    ensures Extends(EnvAt(d, locals, vars, funs), EnvAt(d, locals, fewerVars, fewerFuns))
    decreases Unvisited(d, vars, funs), 1
  {
    forall n | VariableValue(d, locals, vars, funs, n).Ok?
      ensures VariableValue(d, locals, fewerVars, fewerFuns, n) == VariableValue(d, locals, vars, funs, n)
    {
      if n !in locals && n in d.variables {
        ExpandTransparent(d, true, n, d.variables[n], map[], vars, funs, fewerVars, fewerFuns);
      }
    }
    forall f, args | CallValue(d, vars, funs, f, args).Ok?
      ensures CallValue(d, fewerVars, fewerFuns, f, args) == CallValue(d, vars, funs, f, args)
    {
      if f in d.functions {
        ExpandTransparent(d, false, f, d.functions[f], Locals(args, |args|), vars, funs, fewerVars, fewerFuns);
      }
    }
  }

  lemma {:induction false} ExpandTransparent(d: Definitions, variable: bool, name: string, body: Tokens,
      locals: map<string, Value>,
      vars: set<string>, funs: set<string>, fewerVars: set<string>, fewerFuns: set<string>)
    requires d.Valid() && fewerVars <= vars && fewerFuns <= funs
    requires if variable then name in d.variables else name in d.functions
    ensures Expand(d, variable, name, body, locals, vars, funs).Ok? ==>
            Expand(d, variable, name, body, locals, fewerVars, fewerFuns) ==
            Expand(d, variable, name, body, locals, vars, funs)
    decreases Unvisited(d, vars, funs), 0
  {
    if if variable then name !in vars else name !in funs {
      VisitShrinks(d, vars, funs, name);
      var (vars', funs') := if variable then (vars + {name}, funs) else (vars, funs + {name});
      var (fewerVars', fewerFuns') :=
        if variable then (fewerVars + {name}, fewerFuns) else (fewerVars, fewerFuns + {name});
      VisitedIsTransparent(d, locals, vars', funs', fewerVars', fewerFuns');
      RunExtends(EnvAt(d, locals, vars', funs'), EnvAt(d, locals, fewerVars', fewerFuns'), body);
    }
  }

  // ---------- cyclic definitions have no value ----------

  predicate Mentions(e: Expr, vars: set<string>, funs: set<string>)
    decreases e
  {
    match e
    case Num(_, _) => false
    case Var(_, n) => n in vars
    case Paren(_, inner) => Mentions(inner, vars, funs)
    case Fn(_, f, args) => f in funs || MentionsList(args, vars, funs)
    case Bin(_, l, r) => Mentions(l, vars, funs) || Mentions(r, vars, funs)
  }

  predicate MentionsList(es: Exprs, vars: set<string>, funs: set<string>)
    decreases es
  {
    es != NoExprs && (Mentions(es.head, vars, funs) || MentionsList(es.tail, vars, funs))
  }

  function LocalNames(n: nat): set<string> {
    if n == 0 then {} else {"x"} + set i | 1 <= i <= n :: LocalName(i)
  }

  ghost predicate DefinedBy(ts: Tokens, vars: set<string>, funs: set<string>) {
    exists es, trailing :: GroupedList(es) && PrintInput(es, trailing) == ts && MentionsList(es, vars, funs)
  }

  /** Each of these definitions needs another one of them (or itself). */
  ghost predicate Cyclic(d: Definitions, vars: set<string>, funs: set<string>)
    requires d.Valid()
  {
    && (forall n :: n in vars ==> n in d.variables && DefinedBy(d.variables[n], vars, funs))
    && (forall f :: f in funs ==> f in d.functions
                                  && DefinedBy(d.functions[f], vars - LocalNames(d.parameters[f]), funs))
  }

  ghost predicate Fails(env: Env, vars: set<string>, funs: set<string>) {
    && (forall n :: n in vars ==> env.variable(n).Err?)
    && (forall f, args :: f in funs ==> env.call(f, args).Err?)
  }

  lemma {:induction false} MentionFails(env: Env, e: Expr, vars: set<string>, funs: set<string>)
    requires Fails(env, vars, funs) && Mentions(e, vars, funs)
    ensures Eval(env, e).Err?
    decreases e
  {
    match e
    case Var(_, _) =>
    case Paren(_, inner) => MentionFails(env, inner, vars, funs);
    case Fn(_, f, args) => if f !in funs { MentionListFails(env, args, vars, funs); }
    case Bin(_, l, r) =>
      if Mentions(l, vars, funs) { MentionFails(env, l, vars, funs); } else { MentionFails(env, r, vars, funs); }
  }

  lemma {:induction false} MentionListFails(env: Env, es: Exprs, vars: set<string>, funs: set<string>)
    requires Fails(env, vars, funs) && MentionsList(es, vars, funs)
    ensures EvalList(env, es).Err?
    decreases es
  {
    if Mentions(es.head, vars, funs) { MentionFails(env, es.head, vars, funs); }
    else { MentionListFails(env, es.tail, vars, funs); }
  }

  lemma DefinitionFails(env: Env, ts: Tokens, vars: set<string>, funs: set<string>)
    requires Fails(env, vars, funs) && DefinedBy(ts, vars, funs)
    ensures Run(env, ts).Err?
  {
    var es, trailing :| GroupedList(es) && PrintInput(es, trailing) == ts && MentionsList(es, vars, funs);
    RunIsEval(env, es, trailing);
    MentionListFails(env, es, vars, funs);
  }

  /** A name whose expansion comes back to itself, through any mixture of variables and
      functions, ends in an error and never in a value. */
  lemma {:induction false} CyclicHasNoValue(d: Definitions, locals: map<string, Value>,
      vars: set<string>, funs: set<string>, cycleVars: set<string>, cycleFuns: set<string>)
    requires d.Valid() && Cyclic(d, cycleVars, cycleFuns)
    ensures Fails(EnvAt(d, locals, vars, funs), cycleVars - locals.Keys, cycleFuns)
    decreases Unvisited(d, vars, funs), 1
  {
    forall n | n in cycleVars - locals.Keys ensures VariableValue(d, locals, vars, funs, n).Err? {
      CyclicVariable(d, locals, vars, funs, cycleVars, cycleFuns, n);
    }
    forall f, args | f in cycleFuns ensures CallValue(d, vars, funs, f, args).Err? {
      CyclicFunction(d, vars, funs, cycleVars, cycleFuns, f, args);
    }
  }

  lemma {:induction false} CyclicVariable(d: Definitions, locals: map<string, Value>,
      vars: set<string>, funs: set<string>, cycleVars: set<string>, cycleFuns: set<string>, n: string)
    requires d.Valid() && Cyclic(d, cycleVars, cycleFuns) && n in cycleVars - locals.Keys
    ensures VariableValue(d, locals, vars, funs, n).Err?
    decreases Unvisited(d, vars, funs), 0
  {
    hide Run, EnvAt, Fails, DefinedBy;
    if n !in vars {
      VisitShrinks(d, vars, funs, n);
      var none: map<string, Value> := map[];
      CyclicHasNoValue(d, none, vars + {n}, funs, cycleVars, cycleFuns);
      assert cycleVars - none.Keys == cycleVars;
      DefinitionFails(EnvAt(d, none, vars + {n}, funs), d.variables[n], cycleVars, cycleFuns);
    }
  }

  lemma {:induction false} CyclicFunction(d: Definitions, vars: set<string>, funs: set<string>,
      cycleVars: set<string>, cycleFuns: set<string>, f: string, args: seq<Value>)
    requires d.Valid() && Cyclic(d, cycleVars, cycleFuns) && f in cycleFuns
    ensures CallValue(d, vars, funs, f, args).Err?
    decreases Unvisited(d, vars, funs), 0
  {
    hide Run, EnvAt, DefinedBy;
    if f !in funs && d.parameters[f] == |args| {
      VisitShrinks(d, vars, funs, f);
      var locals := Locals(args, |args|);
      CyclicHasNoValue(d, locals, vars, funs + {f}, cycleVars, cycleFuns);
      if |args| > 0 { LocalsFrame(args, |args|); }
      assert locals.Keys <= LocalNames(|args|);
      DefinitionFails(EnvAt(d, locals, vars, funs + {f}), d.functions[f], cycleVars - LocalNames(|args|), cycleFuns);
    }
  }

  lemma RunName(env: Env, m: string)
    ensures env.variable(m).Err? ==> Run(env, Cons(Name(m), End)) == Err(env.variable(m).error)
  {
    assert SignOf(Cons(Name(m), End)) == NoSign;
    assert RunSigned(env, NoSign, Cons(Name(m), End), Bottom).Err? || env.variable(m).Ok?;
  }

  /** Variables that only rename one another in a circle end in the loop error itself. */
  lemma {:induction false} AliasLoop(d: Definitions, vars: set<string>, funs: set<string>, cycle: set<string>,
                                     n: string)
    requires d.Valid() && n in cycle
    requires forall m :: m in cycle ==> m in d.variables && d.variables[m].Cons? && d.variables[m].tail == End
                                        && d.variables[m].head.Name? && d.variables[m].head.name in cycle
    ensures VariableValue(d, map[], vars, funs, n) == Err(VariableLoop)
    decreases Unvisited(d, vars, funs)
  {
    if n !in vars {
      VisitShrinks(d, vars, funs, n);
      var m := d.variables[n].head.name;
      AliasLoop(d, vars + {n}, funs, cycle, m);
      RunName(EnvAt(d, map[], vars + {n}, funs), m);
      assert d.variables[n] == Cons(Name(m), End);
    }
  }
}
