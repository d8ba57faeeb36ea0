/** Exactly the names whose expansion reaches a cycle have no value, and they end in one of the two
    loop errors, if nothing else can go wrong in the definitions. */
module ExpressionLoops {
  import opened ExpressionGrammar
  import opened ExpressionMachine
  import opened ExpressionExpansion

  /** The expression each definition is made of. */
  datatype Trees = Trees(variables: map<string, Expr>, functions: map<string, Expr>)

  ghost predicate IsBody(ts: Tokens, e: Expr) {
    Grouped(e) && exists trailing :: PrintInput(MoreExprs(e, NoExprs), trailing) == ts
  }

  function Length(es: Exprs): nat { if es == NoExprs then 0 else 1 + Length(es.tail) }

  /** Every name is a local, a defined variable or a constant, and user-defined functions get as
      many arguments as they have parameters. */
  predicate Known(d: Definitions, e: Expr, locals: set<string>)
    requires d.Valid()
    decreases e
  {
    match e
    case Num(_, _) => true
    case Var(_, n) => n in locals || n in d.variables || n in d.constants
    case Paren(_, inner) => Known(d, inner, locals)
    case Fn(_, f, args) => (f in d.functions ==> d.parameters[f] == Length(args)) && KnownList(d, args, locals)
    case Bin(_, l, r) => Known(d, l, locals) && Known(d, r, locals)
  }

  predicate KnownList(d: Definitions, es: Exprs, locals: set<string>)
    requires d.Valid()
    decreases es
  {
    es == NoExprs || (Known(d, es.head, locals) && KnownList(d, es.tail, locals))
  }

  /** Every definition is one well-grouped expression of known names, and neither operators nor
      built-in functions fail. */
  ghost predicate Sane(d: Definitions, t: Trees) {
    && d.Valid() && t.variables.Keys == d.variables.Keys && t.functions.Keys == d.functions.Keys
    && (forall n :: n in d.variables ==> IsBody(d.variables[n], t.variables[n]) && Known(d, t.variables[n], {}))
    && (forall f :: f in d.functions ==>
          IsBody(d.functions[f], t.functions[f]) && Known(d, t.functions[f], LocalNames(d.parameters[f])))
    && (forall op, a, b :: d.arithmetic(op, a, b).Ok?)
    && (forall f, args :: f !in d.functions ==> d.builtin(f, args).Ok?)
  }

  predicate IsLoop<T>(r: Result<T>) { r.Err? && r.error in {VariableLoop, FunctionsLoop} }

  // ---------- what a failure means ----------

  /** Each of these definitions needs another one of them, or one that is marked as visited. */
  ghost predicate Needs(d: Definitions, t: Trees, vs: set<string>, fs: set<string>, vars: set<string>,
                        funs: set<string>)
    requires Sane(d, t)
  {
    && (forall n :: n in vs ==> n in d.variables && Mentions(t.variables[n], vs + vars, fs + funs))
    && (forall f :: f in fs ==>
          f in d.functions && Mentions(t.functions[f], vs + vars - LocalNames(d.parameters[f]), fs + funs))
  }

  /** The names that explain a failure. */
  datatype Reason = Reason(vs: set<string>, fs: set<string>)

  ghost predicate Explains(d: Definitions, t: Trees, r: Reason, vars: set<string>, funs: set<string>,
                           e: Expr, locals: set<string>)
    requires Sane(d, t)
  {
    Needs(d, t, r.vs, r.fs, vars, funs) && Mentions(e, r.vs + vars - locals, r.fs + funs)
  }

  ghost predicate ExplainsList(d: Definitions, t: Trees, r: Reason, vars: set<string>, funs: set<string>,
                               es: Exprs, locals: set<string>)
    requires Sane(d, t)
  {
    Needs(d, t, r.vs, r.fs, vars, funs) && MentionsList(es, r.vs + vars - locals, r.fs + funs)
  }

  /** An expression that fails mentions a marked name or one of a set of names that need each
      other or a marked one; and the error says that there is a loop. */
  lemma {:induction false} ExprFails(d: Definitions, t: Trees, e: Expr, locals: map<string, Value>,
      vars: set<string>, funs: set<string>) returns (r: Reason)
    requires Sane(d, t) && Known(d, e, locals.Keys) && Eval(EnvAt(d, locals, vars, funs), e).Err?
    ensures IsLoop(Eval(EnvAt(d, locals, vars, funs), e)) && Explains(d, t, r, vars, funs, e, locals.Keys)
    decreases Unvisited(d, vars, funs), 2, e
  {
    var env := EnvAt(d, locals, vars, funs);
    match e
    case Num(_, _) => assert false;
    case Var(_, n) =>
      assert n !in locals && n in d.variables;
      r := VariableFails(d, t, n, vars, funs);
    case Paren(_, inner) => r := ExprFails(d, t, inner, locals, vars, funs);
    case Fn(_, f, args) =>
      if EvalList(env, args).Err? {
        r := ListFails(d, t, args, locals, vars, funs);
      } else {
        ListLength(env, args);
        assert f in d.functions;
        r := CallFails(d, t, f, EvalList(env, args).value, vars, funs);
      }
    case Bin(_, left, right) =>
      if Eval(env, left).Err? {
        r := ExprFails(d, t, left, locals, vars, funs);
      } else {
        r := ExprFails(d, t, right, locals, vars, funs);
      }
  }

  lemma {:induction false} ListFails(d: Definitions, t: Trees, es: Exprs, locals: map<string, Value>,
      vars: set<string>, funs: set<string>) returns (r: Reason)
    requires Sane(d, t) && KnownList(d, es, locals.Keys) && EvalList(EnvAt(d, locals, vars, funs), es).Err?
    ensures IsLoop(EvalList(EnvAt(d, locals, vars, funs), es)) && ExplainsList(d, t, r, vars, funs, es, locals.Keys)
    decreases Unvisited(d, vars, funs), 2, es
  {
    if Eval(EnvAt(d, locals, vars, funs), es.head).Err? {
      r := ExprFails(d, t, es.head, locals, vars, funs);
    } else {
      r := ListFails(d, t, es.tail, locals, vars, funs);
    }
  }

  lemma {:induction false} ListLength(env: Env, es: Exprs)
    requires EvalList(env, es).Ok?
    ensures |EvalList(env, es).value| == Length(es)
    decreases es
  {
    if es != NoExprs { ListLength(env, es.tail); }
  }

  lemma BodyRuns(env: Env, ts: Tokens, e: Expr)
    requires IsBody(ts, e)
    ensures OneValue(Run(env, ts)) == Eval(env, e)
  {
    var es := MoreExprs(e, NoExprs);
    var trailing :| PrintInput(es, trailing) == ts;
    assert GroupedList(es) by { assert GroupedList(NoExprs); }
    RunIsEval(env, es, trailing);
    assert EvalList(env, NoExprs) == Ok([]);
    if Eval(env, e).Ok? { assert [Eval(env, e).value] + [] == [Eval(env, e).value]; }
  }

  lemma {:induction false} VariableFails(d: Definitions, t: Trees, n: string, vars: set<string>, funs: set<string>)
    returns (r: Reason)
    requires Sane(d, t) && n in d.variables && VariableValue(d, map[], vars, funs, n).Err?
    ensures IsLoop(VariableValue(d, map[], vars, funs, n))
    ensures Needs(d, t, r.vs, r.fs, vars, funs) && n in r.vs + vars
    decreases Unvisited(d, vars, funs), 1
  {
    assert d.Valid();
    hide Sane, EnvAt, Eval, VariableValue, Needs, Mentions, Unvisited;
    if n in vars {
      MarkedLoops(d, n, [], vars, funs);
      NothingNeeded(d, t, vars, funs);
      r := Reason({}, {});
    } else {
      VisitShrinks(d, vars, funs, n);
      VariableExpands(d, t, n, vars, funs);
      var none: map<string, Value> := map[];
      assert none.Keys == {};
      var inner := ExprFails(d, t, t.variables[n], none, vars + {n}, funs);
      AddVariable(d, t, inner, vars, funs, n);
      r := Reason(inner.vs + {n}, inner.fs);
    }
  }

  lemma NothingNeeded(d: Definitions, t: Trees, vars: set<string>, funs: set<string>)
    requires Sane(d, t)
    ensures Needs(d, t, {}, {}, vars, funs)
  {
    hide Sane;
  }

  /** Marked names end in a loop error at once. */
  lemma MarkedLoops(d: Definitions, n: string, args: seq<Value>, vars: set<string>, funs: set<string>)
    requires d.Valid()
    ensures n in d.variables && n in vars ==> IsLoop(VariableValue(d, map[], vars, funs, n))
    ensures n in d.functions && n in funs && d.parameters[n] == |args| ==> IsLoop(CallValue(d, vars, funs, n, args))
  {
    hide EnvAt, Run;
  }

  /** The value of a variable that may be expanded is that of its expression. */
  lemma VariableExpands(d: Definitions, t: Trees, n: string, vars: set<string>, funs: set<string>)
    requires Sane(d, t) && n in d.variables && n !in vars
    ensures n in t.variables && Known(d, t.variables[n], {})
    ensures VariableValue(d, map[], vars, funs, n) == Eval(EnvAt(d, map[], vars + {n}, funs), t.variables[n])
  {
    var none: map<string, Value> := map[];
    assert IsBody(d.variables[n], t.variables[n]) && Known(d, t.variables[n], {}) && none.Keys == {};
    hide Sane, EnvAt, Eval, Run, IsBody;
    BodyRuns(EnvAt(d, none, vars + {n}, funs), d.variables[n], t.variables[n]);
  }

  lemma AddVariable(d: Definitions, t: Trees, inner: Reason, vars: set<string>, funs: set<string>, n: string)
    requires Sane(d, t) && n in d.variables && Explains(d, t, inner, vars + {n}, funs, t.variables[n], {})
    ensures Needs(d, t, inner.vs + {n}, inner.fs, vars, funs)
  {
    hide Sane, Mentions;
    var vs := inner.vs + {n};
    assert inner.vs + (vars + {n}) == vs + vars && inner.vs + (vars + {n}) - {} == vs + vars;
  }

  lemma {:induction false} CallFails(d: Definitions, t: Trees, f: string, args: seq<Value>, vars: set<string>,
                                     funs: set<string>)
    returns (r: Reason)
    requires Sane(d, t) && f in d.functions && d.parameters[f] == |args| && CallValue(d, vars, funs, f, args).Err?
    ensures IsLoop(CallValue(d, vars, funs, f, args))
    ensures Needs(d, t, r.vs, r.fs, vars, funs) && f in r.fs + funs
    decreases Unvisited(d, vars, funs), 1
  {
    assert d.Valid();
    LocalsAre(args);
    hide Sane, EnvAt, Eval, CallValue, Needs, Mentions, Unvisited, Locals, LocalNames;
    if f in funs {
      MarkedLoops(d, f, args, vars, funs);
      NothingNeeded(d, t, vars, funs);
      r := Reason({}, {});
    } else {
      VisitShrinks(d, vars, funs, f);
      FunctionExpands(d, t, f, args, vars, funs);
      var inner := ExprFails(d, t, t.functions[f], Locals(args, |args|), vars, funs + {f});
      AddFunction(d, t, inner, vars, funs, f);
      r := Reason(inner.vs, inner.fs + {f});
    }
  }

  /** The value of a call that may be expanded is that of the function's expression. */
  lemma FunctionExpands(d: Definitions, t: Trees, f: string, args: seq<Value>, vars: set<string>, funs: set<string>)
    requires Sane(d, t) && f in d.functions && d.parameters[f] == |args| && f !in funs
    ensures f in t.functions && Known(d, t.functions[f], Locals(args, |args|).Keys)
    ensures CallValue(d, vars, funs, f, args) ==
            Eval(EnvAt(d, Locals(args, |args|), vars, funs + {f}), t.functions[f])
  {
    LocalsAre(args);
    assert IsBody(d.functions[f], t.functions[f]) && Known(d, t.functions[f], LocalNames(|args|));
    hide Sane, EnvAt, Eval, Run, IsBody, Locals, LocalNames;
    BodyRuns(EnvAt(d, Locals(args, |args|), vars, funs + {f}), d.functions[f], t.functions[f]);
  }

  lemma AddFunction(d: Definitions, t: Trees, inner: Reason, vars: set<string>, funs: set<string>, f: string)
    requires Sane(d, t) && f in d.functions
    requires Explains(d, t, inner, vars, funs + {f}, t.functions[f], LocalNames(d.parameters[f]))
    ensures Needs(d, t, inner.vs, inner.fs + {f}, vars, funs)
  {
    hide Sane, Mentions, LocalNames;
    assert inner.fs + (funs + {f}) == inner.fs + {f} + funs;
  }

  lemma LocalsAre(args: seq<Value>)
    ensures Locals(args, |args|).Keys == LocalNames(|args|)
  {
    if |args| > 0 {
      LocalsFrame(args, |args|);
      forall i | 1 <= i <= |args| ensures LocalName(i) in Locals(args, |args|) { LocalsBind(args, |args|, i); }
    }
  }

  // ---------- cycles ----------

  /** Names that need each other, with none marked, are a cycle. */
  lemma NeedsIsCyclic(d: Definitions, t: Trees, r: Reason)
    requires Sane(d, t) && Needs(d, t, r.vs, r.fs, {}, {})
    ensures Cyclic(d, r.vs, r.fs)
  {
    assert r.vs + {} == r.vs && r.fs + {} == r.fs;
    forall n | n in r.vs ensures n in d.variables && DefinedBy(d.variables[n], r.vs, r.fs) {
      BodyMentions(d.variables[n], t.variables[n], r.vs, r.fs);
    }
    forall f | f in r.fs
      ensures f in d.functions && DefinedBy(d.functions[f], r.vs - LocalNames(d.parameters[f]), r.fs)
    {
      BodyMentions(d.functions[f], t.functions[f], r.vs - LocalNames(d.parameters[f]), r.fs);
    }
  }

  lemma BodyMentions(ts: Tokens, e: Expr, vs: set<string>, fs: set<string>)
    requires IsBody(ts, e) && Mentions(e, vs, fs)
    ensures DefinedBy(ts, vs, fs)
  {
    var es := MoreExprs(e, NoExprs);
    var trailing :| PrintInput(es, trailing) == ts;
    assert GroupedList(es) by { assert GroupedList(NoExprs); }
    assert MentionsList(es, vs, fs);
  }

  ghost predicate CyclicWith(d: Definitions, n: string, variable: bool, r: Reason)
    requires d.Valid()
  {
    Cyclic(d, r.vs, r.fs) && if variable then n in r.vs else n in r.fs
  }

  /** The expansion comes back to a name: it is one of a set of names that all need one of the set. */
  ghost predicate ReachesCycle(d: Definitions, n: string, variable: bool)
    requires d.Valid()
  {
    exists r :: CyclicWith(d, n, variable, r)
  }

  /** A variable has a value if and only if its expansion reaches no cycle; otherwise it ends in a
      loop error. */
  lemma VariableIffAcyclic(d: Definitions, t: Trees, n: string)
    requires Sane(d, t) && n in d.variables
    ensures VariableValue(d, map[], {}, {}, n).Ok? <==> !ReachesCycle(d, n, true)
    ensures ReachesCycle(d, n, true) <==> IsLoop(VariableValue(d, map[], {}, {}, n))
  {
    assert d.Valid();
    hide Sane, Cyclic, VariableValue;
    if VariableValue(d, map[], {}, {}, n).Err? {
      var r := VariableFails(d, t, n, {}, {});
      NeedsIsCyclic(d, t, r);
      assert CyclicWith(d, n, true, r);
    }
    if ReachesCycle(d, n, true) {
      var r :| CyclicWith(d, n, true, r);
      var none: map<string, Value> := map[];
      assert n in r.vs - none.Keys;
      CyclicVariable(d, none, {}, {}, r.vs, r.fs, n);
    }
  }

  /** A function has values if and only if its expansion reaches no cycle, whatever the arguments. */
  lemma FunctionIffAcyclic(d: Definitions, t: Trees, f: string, args: seq<Value>)
    requires Sane(d, t) && f in d.functions && |args| == d.parameters[f]
    ensures CallValue(d, {}, {}, f, args).Ok? <==> !ReachesCycle(d, f, false)
    ensures ReachesCycle(d, f, false) <==> IsLoop(CallValue(d, {}, {}, f, args))
  {
    assert d.Valid();
    hide Sane, Cyclic, CallValue;
    if CallValue(d, {}, {}, f, args).Err? {
      var r := CallFails(d, t, f, args, {}, {});
      NeedsIsCyclic(d, t, r);
      assert CyclicWith(d, f, false, r);
    }
    if ReachesCycle(d, f, false) {
      var r :| CyclicWith(d, f, false, r);
      CyclicFunction(d, {}, {}, r.vs, r.fs, f, args);
    }
  }

  /** Inside any other expansion too, a cyclic name ends in a loop error. */
  lemma CyclicEndsInLoop(d: Definitions, t: Trees, vars: set<string>, funs: set<string>, r: Reason)
    requires Sane(d, t) && Cyclic(d, r.vs, r.fs)
    ensures forall n :: n in r.vs ==> IsLoop(VariableValue(d, map[], vars, funs, n))
    ensures forall f, args :: f in r.fs && |args| == d.parameters[f] ==> IsLoop(CallValue(d, vars, funs, f, args))
  {
    forall n | n in r.vs ensures IsLoop(VariableValue(d, map[], vars, funs, n)) {
      var none: map<string, Value> := map[];
      assert n in r.vs - none.Keys;
      CyclicVariable(d, none, vars, funs, r.vs, r.fs, n);
      var _ := VariableFails(d, t, n, vars, funs);
    }
    forall f, args | f in r.fs && |args| == d.parameters[f] ensures IsLoop(CallValue(d, vars, funs, f, args)) {
      CyclicFunction(d, vars, funs, r.vs, r.fs, f, args);
      var _ := CallFails(d, t, f, args, vars, funs);
    }
  }
}
