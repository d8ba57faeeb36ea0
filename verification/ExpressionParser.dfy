/** The parser object: a vector used as a stack through an index, a reading pointer, and the
    visited sets that are extended around each nested parser. */
module ExpressionParser {
  import opened ExpressionGrammar
  import opened ExpressionMachine
  import opened ExpressionExpansion

  /** The stack held by a vector prefix. */
  function StackOf(s: seq<Item>): Stack {
    if |s| == 0 then Bottom else Push(s[|s| - 1], StackOf(s[..|s| - 1]))
  }

  lemma StackOfTop(s: seq<Item>, n: nat)
    requires 0 < n <= |s|
    ensures StackOf(s[..n]) == Push(s[n - 1], StackOf(s[..n - 1]))
  {
    assert s[..n][..n - 1] == s[..n - 1];
  }

  lemma EmptyStack(s: seq<Item>, n: nat)
    requires n <= |s|
    ensures n == 0 <==> StackOf(s[..n]) == Bottom
  {
  }

  lemma StackOfTop3(s: seq<Item>, n: nat)
    requires 3 <= n <= |s|
    ensures StackOf(s[..n]) == Push(s[n - 1], Push(s[n - 2], Push(s[n - 3], StackOf(s[..n - 3]))))
  {
    StackOfTop(s, n);
    StackOfTop(s, n - 1);
    StackOfTop(s, n - 2);
  }

  /** One step down the parameters of a bracket. */
  lemma NextParameter(s: seq<Item>, n: nat, later: seq<Value>)
    requires 2 <= n <= |s|
    ensures Parameters(StackOf(s[..n]), later) ==
            if !s[n - 1].Val? then Err(InternalError)
            else if s[n - 2].Semi? then Parameters(StackOf(s[..n - 2]), [s[n - 1].v] + later)
            else if s[n - 2].Bracket? then Ok(([s[n - 1].v] + later, StackOf(s[..n - 1])))
            else Err(UnexpectedFinalBracket)
  {
    StackOfTop(s, n);
    StackOfTop(s, n - 1);
  }

  lemma NoParameter(s: seq<Item>, n: nat, later: seq<Value>)
    requires n <= |s| && n < 2
    ensures Parameters(StackOf(s[..n]), later) == Err(UnexpectedFinalBracket)
  {
    if n == 1 { StackOfTop(s, 1); }
  }

  lemma ReplaceTop(s: seq<Item>, n: nat, item: Item)
    requires 1 <= n <= |s|
    ensures StackOf(s[n - 1 := item][..n]) == Push(item, StackOf(s[..n - 1]))
  {
    StackOfTop(s[n - 1 := item], n);
    assert s[n - 1 := item][..n - 1] == s[..n - 1];
  }

  lemma ReplaceTop2(s: seq<Item>, n: nat, lower: Item, upper: Item)
    requires 2 <= n <= |s|
    ensures StackOf(s[n - 2 := lower][n - 1 := upper][..n]) == Push(upper, Push(lower, StackOf(s[..n - 2])))
  {
    ReplaceTop(s[n - 2 := lower], n, upper);
    ReplaceTop(s, n - 1, lower);
  }

  /** A value, an operator and a value are on top. */
  predicate CanRollUp(s: seq<Item>, n: nat)
    requires n <= |s|
  {
    n >= 3 && s[n - 3].Val? && s[n - 2].Oper? && s[n - 1].Val?
  }

  lemma RollUpStep(env: Env, s: seq<Item>, n: nat)
    requires n <= |s| && CanRollUp(s, n)
    ensures RollUp(env, StackOf(s[..n])) ==
            match env.Apply(s[n - 2].op, s[n - 3].v, s[n - 1].v)
            case Err(x) => Err(x)
            case Ok(v) => RollUp(env, Push(Val(v), StackOf(s[..n - 3])))
  {
    StackOfTop3(s, n);
  }

  lemma RollUpDone(env: Env, s: seq<Item>, n: nat)
    requires n <= |s| && !CanRollUp(s, n)
    ensures RollUp(env, StackOf(s[..n])) == Ok(StackOf(s[..n]))
  {
    if n >= 1 { StackOfTop(s, n); }
    if n >= 2 { StackOfTop(s, n - 1); }
    if n >= 3 { StackOfTop(s, n - 2); }
  }

  /** A pending operator, under the operator just pushed, comes before it. */
  predicate CanReduce(s: seq<Item>, n: nat)
    requires n <= |s|
  {
    && n >= 4
    && s[n - 4].Val? && s[n - 3].Oper? && s[n - 2].Val? && s[n - 1].Oper?
    && Reduces(s[n - 3].op, s[n - 1].op)
  }

  /** `PushOperatorOn` for an operator already on top; anything else stays as it is. */
  function PushTop(env: Env, s: Stack): Result<Stack>
    requires s.Push?
  {
    if s.top.Oper? then PushOperatorOn(env, s.top.op, s.below) else Ok(s)
  }

  lemma ReduceStep(env: Env, s: seq<Item>, n: nat)
    requires n <= |s| && CanReduce(s, n)
    ensures StackOf(s[..n]).Push?
    ensures PushTop(env, StackOf(s[..n])) ==
            match env.Apply(s[n - 3].op, s[n - 4].v, s[n - 2].v)
            case Err(x) => Err(x)
            case Ok(v) => PushTop(env, Push(s[n - 1], Push(Val(v), StackOf(s[..n - 4]))))
  {
    StackOfTop(s, n);
    StackOfTop3(s, n - 1);
  }

  lemma ReduceDone(env: Env, s: seq<Item>, n: nat)
    requires n <= |s| && StackOf(s[..n]).Push? && !CanReduce(s, n)
    ensures PushTop(env, StackOf(s[..n])) == Ok(StackOf(s[..n]))
  {
    if n >= 1 { StackOfTop(s, n); }
    if n >= 2 { StackOfTop(s, n - 1); }
    if n >= 3 { StackOfTop(s, n - 2); }
    if n >= 4 { StackOfTop(s, n - 3); }
  }

  lemma EnvAtCall(d: Definitions, locals: map<string, Value>, vars: set<string>, funs: set<string>, f: string,
                  args: seq<Value>)
    requires d.Valid()
    ensures EnvAt(d, locals, vars, funs).call(f, args) == CallValue(d, vars, funs, f, args)
  {
  }

  lemma EnvAtComputes(d: Definitions, locals: map<string, Value>, vars: set<string>, funs: set<string>)
    requires d.Valid()
    ensures var env := EnvAt(d, locals, vars, funs); env.arithmetic == d.arithmetic && env.negate == d.negate
  {
  }

  /** What a parser does after the operator position: the string has ended, or `item` comes next. */
  datatype Next = Finished | Found(item: Item)

  ghost function Continue(env: Env, next: Next, ts: Tokens, s: Stack): Result<seq<Value>>
    requires next.Found? ==> next.item.Semi? || next.item.Oper?
  {
    match next
    case Finished => Finish(env, s)
    case Found(Semi) =>
      if s == Bottom then Err(NothingHasRead)
      else
        var t :- RollUp(env, s);
        RunOperand(env, ts, Push(Semi, t))
    case Found(Oper(op)) =>
      var t :- PushOperatorOn(env, op, s);
      RunOperand(env, ts, t)
  }

  class Parser {
    const defs: Definitions
    var stack: seq<Item>
    var stackIndex: nat
    var input: Tokens
    var locals: map<string, Value>
    var visitedVariables: set<string>
    var visitedFunctions: set<string>

    ghost predicate Valid() reads this { stackIndex <= |stack| && defs.Valid() }

    ghost function Contents(): Stack
      requires Valid()
      reads this
    {
      StackOf(stack[..stackIndex])
    }

    /** `env` has this parser's arithmetic. */
    ghost predicate Computes(env: Env) { env.arithmetic == defs.arithmetic && env.negate == defs.negate }

    /** `env` is what names mean to this parser. */
    ghost predicate Interprets(env: Env)
      reads this
    {
      defs.Valid() && Computes(env) && env == EnvAt(defs, locals, visitedVariables, visitedFunctions)
    }

    constructor (d: Definitions)
      requires d.Valid()
      ensures Valid() && defs == d && locals == map[] && visitedVariables == {} == visitedFunctions
    {
      defs := d;
      stack, stackIndex, input := [], 0, End;
      locals, visitedVariables, visitedFunctions := map[], {}, {};
    }

    /** The copy made for a nested string: same tables and visited names, given locals. */
    constructor Nested(p: Parser, ls: map<string, Value>)
      requires p.Valid()
      ensures Valid() && defs == p.defs && locals == ls
      ensures visitedVariables == p.visitedVariables && visitedFunctions == p.visitedFunctions
    {
      defs := p.defs;
      stack, stackIndex, input := [], 0, End;
      locals, visitedVariables, visitedFunctions := ls, p.visitedVariables, p.visitedFunctions;
    }

    method PushItem(item: Item)
      requires Valid()
      modifies this`stack, this`stackIndex
      ensures Valid() && Contents() == Push(item, old(Contents())) && stackIndex == old(stackIndex) + 1
    {
      if stackIndex < |stack| { stack := stack[stackIndex := item]; } else { stack := stack + [item]; }
      stackIndex := stackIndex + 1;
      StackOfTop(stack, stackIndex);
      assert stack[..stackIndex - 1] == old(stack[..stackIndex]);
    }

    method Operation(ghost env: Env, a: Value, op: MatOperator, b: Value) returns (r: Result<Value>)
      requires Computes(env)
      ensures r == env.Apply(op, a, b)
    {
      r := defs.arithmetic(if op == ShortMul then Mul else op, a, b);
    }

    method TryRollingUpStack(ghost env: Env) returns (r: Result<()>)
      requires Valid() && Computes(env)
      modifies this`stack, this`stackIndex
      ensures Valid()
      ensures match RollUp(env, old(Contents()))
              case Err(x) => r == Err(x)
              case Ok(s) => r.Ok? && Contents() == s
    {
      hide RollUp, StackOf;
      while CanRollUp(stack, stackIndex)
        invariant Valid()
        invariant RollUp(env, Contents()) == RollUp(env, old(Contents()))
        decreases stackIndex
      {
        RollUpStep(env, stack, stackIndex);
        var v := Operation(env, stack[stackIndex - 3].v, stack[stackIndex - 2].op, stack[stackIndex - 1].v);
        if v.Err? { return Err(v.error); }
        ReplaceTop(stack, stackIndex - 2, Val(v.value));
        stack := stack[stackIndex - 3 := Val(v.value)];
        stackIndex := stackIndex - 2;
      }
      RollUpDone(env, stack, stackIndex);
      return Ok(());
    }

    method TryRollingUpStackWithOperatorPriority(ghost env: Env) returns (r: Result<()>)
      requires Valid() && Computes(env) && Contents().Push?
      modifies this`stack, this`stackIndex
      ensures Valid()
      ensures match PushTop(env, old(Contents()))
              case Err(x) => r == Err(x)
              case Ok(s) => r.Ok? && Contents() == s
    {
      hide PushTop, StackOf;
      while CanReduce(stack, stackIndex)
        invariant Valid() && Contents().Push?
        invariant PushTop(env, Contents()) == PushTop(env, old(Contents()))
        decreases stackIndex
      {
        ReduceStep(env, stack, stackIndex);
        var v := Operation(env, stack[stackIndex - 4].v, stack[stackIndex - 3].op, stack[stackIndex - 2].v);
        if v.Err? { return Err(v.error); }
        ReplaceTop2(stack, stackIndex - 2, Val(v.value), stack[stackIndex - 1]);
        stack := stack[stackIndex - 4 := Val(v.value)][stackIndex - 3 := stack[stackIndex - 1]];
        stackIndex := stackIndex - 2;
      }
      ReduceDone(env, stack, stackIndex);
      return Ok(());
    }

    /** The number of parameters and the index of the first one; they lie two apart. */
    method HowManyParameters() returns (r: Result<(nat, nat)>)
      requires Valid()
      ensures match BracketParameters(Contents())
              case Err(x) => r == Err(x)
              case Ok((vs, from)) =>
                && r.Ok? && r.value.0 == |vs|
                && 1 <= r.value.1 <= stackIndex && (|vs| > 0 ==> r.value.1 + 2 * |vs| - 1 == stackIndex)
                && StackOf(stack[..r.value.1]) == from
                && forall i :: 0 <= i < |vs| ==> stack[r.value.1 + 2 * i] == Val(vs[i])
    {
      hide StackOf, Parameters;
      var size, index: int := 0, stackIndex;
      EmptyStack(stack, index);
      if index == 0 { return Err(UnexpectedFinalBracket); }
      StackOfTop(stack, index);
      if stack[index - 1].Bracket? { return Ok((0, index)); }
      ghost var later: seq<Value> := [];
      index := index - 1;
      while index >= 1
        invariant -1 <= index < stackIndex && index == stackIndex - 1 - 2 * size && size == |later|
        invariant Parameters(StackOf(stack[..index + 1]), later) == Parameters(Contents(), [])
        invariant forall i :: 0 <= i < size ==> stack[index + 2 + 2 * i] == Val(later[i])
        decreases index
      {
        NextParameter(stack, index + 1, later);
        if !stack[index].Val? { return Err(InternalError); }
        size := size + 1;
        later := [stack[index].v] + later;
        if !stack[index - 1].Semi? { break; }
        index := index - 2;
      }
      if index < 1 {
        NoParameter(stack, index + 1, later);
        return Err(UnexpectedFinalBracket);
      }
      if !stack[index - 1].Bracket? { return Err(UnexpectedFinalBracket); }
      return Ok((size, index));
    }

    /** The parameters found by `HowManyParameters`, bottom first. */
    method Arguments(size: nat, index: nat, ghost vs: seq<Value>) returns (args: seq<Value>)
      requires Valid() && size == |vs| && (size > 0 ==> index + 2 * size - 1 <= |stack|)
      requires forall i :: 0 <= i < size ==> stack[index + 2 * i] == Val(vs[i])
      ensures args == vs
    {
      args := [];
      for i := 0 to size
        invariant args == vs[..i]
      {
        assert stack[index + 2 * i] == Val(vs[i]);
        args := args + [stack[index + 2 * i].v];
      }
    }

    method LocalVariables(args: seq<Value>) returns (ls: map<string, Value>)
      ensures ls == Locals(args, |args|)
    {
      ls := map[];
      if |args| > 0 {
        ls := Insert(ls, "x", args[0]);
        for i := 0 to |args|
          invariant ls == Locals(args, i)
        {
          ls := Insert(ls, LocalName(i + 1), args[i]);
        }
      }
    }

    method AddName(variable: bool, name: string)
      modifies this`visitedVariables, this`visitedFunctions
      ensures visitedVariables == if variable then old(visitedVariables) + {name} else old(visitedVariables)
      ensures visitedFunctions == if variable then old(visitedFunctions) else old(visitedFunctions) + {name}
    {
      if variable { visitedVariables := visitedVariables + {name}; }
      else { visitedFunctions := visitedFunctions + {name}; }
    }

    method DeleteName(variable: bool, name: string)
      modifies this`visitedVariables, this`visitedFunctions
      ensures visitedVariables == if variable then old(visitedVariables) - {name} else old(visitedVariables)
      ensures visitedFunctions == if variable then old(visitedFunctions) else old(visitedFunctions) - {name}
    {
      if variable { visitedVariables := visitedVariables - {name}; }
      else { visitedFunctions := visitedFunctions - {name}; }
    }

    /** Evaluates the definition of `name` in a nested parser; the visited sets are as before
        when this returns. */
    method RecurrenceParsing(variable: bool, name: string, body: Tokens, ls: map<string, Value>)
      returns (r: Result<Value>)
      requires Valid()
      requires if variable then name in defs.variables else name in defs.functions
      modifies this`visitedVariables, this`visitedFunctions
      ensures visitedVariables == old(visitedVariables) && visitedFunctions == old(visitedFunctions)
      ensures r == Expand(defs, variable, name, body, ls, visitedVariables, visitedFunctions)
      decreases Unvisited(defs, visitedVariables, visitedFunctions), 0
    {
      hide Run, EnvAt, OneValue, Unvisited;
      if variable && name in visitedVariables { return Err(VariableLoop); }
      if !variable && name in visitedFunctions { return Err(FunctionsLoop); }
      VisitShrinks(defs, visitedVariables, visitedFunctions, name);
      assert variable ==> visitedVariables + {name} - {name} == visitedVariables;
      assert !variable ==> visitedFunctions + {name} - {name} == visitedFunctions;
      AddName(variable, name);
      var nested := new Parser.Nested(this, ls);
      var values := nested.Parse(body);
      DeleteName(variable, name);
      r := OneValue(values);
    }

    method GetValueOfVariable(name: string) returns (r: Result<Value>)
      requires Valid()
      modifies this`visitedVariables, this`visitedFunctions
      ensures visitedVariables == old(visitedVariables) && visitedFunctions == old(visitedFunctions)
      ensures r == VariableValue(defs, locals, visitedVariables, visitedFunctions, name)
      decreases Unvisited(defs, visitedVariables, visitedFunctions), 1
    {
      if name in locals { return Ok(locals[name]); }
      if name in defs.variables {
        r := RecurrenceParsing(true, name, defs.variables[name], map[]);
        return;
      }
      if name !in defs.constants { return Err(UnknownVariable); }
      return Ok(defs.constants[name]);
    }

    method CallFunction(name: string, args: seq<Value>) returns (r: Result<Value>)
      requires Valid()
      modifies this`visitedVariables, this`visitedFunctions
      ensures visitedVariables == old(visitedVariables) && visitedFunctions == old(visitedFunctions)
      ensures r == CallValue(defs, visitedVariables, visitedFunctions, name, args)
      decreases Unvisited(defs, visitedVariables, visitedFunctions), 1
    {
      if name in defs.functions {
        if defs.parameters[name] != |args| { return Err(ImproperAmountOfArguments); }
        var ls := LocalVariables(args);
        r := RecurrenceParsing(false, name, defs.functions[name], ls);
        return;
      }
      r := defs.builtin(name, args);
    }

    method RollingUpFinalBracket(ghost env: Env) returns (r: Result<()>)
      requires Valid() && Interprets(env)
      modifies this`stack, this`stackIndex, this`visitedVariables, this`visitedFunctions
      ensures Valid() && Interprets(env)
      ensures visitedVariables == old(visitedVariables) && visitedFunctions == old(visitedFunctions)
      ensures match CloseBracket(env, old(Contents()))
              case Err(x) => r == Err(x)
              case Ok(s) => r.Ok? && Contents() == s
      decreases Unvisited(defs, visitedVariables, visitedFunctions), 4
    {
      hide EnvAt, RollUp, ReplaceBracket;
      if stackIndex >= 1 { StackOfTop(stack, stackIndex); }
      if stackIndex < 1 || !(stack[stackIndex - 1].Val? || stack[stackIndex - 1].Bracket?) {
        r := Err(UnexpectedFinalBracket);
      } else {
        r := TryRollingUpStack(env);
        if r.Ok? { r := RollingUpParameters(env); }
      }
    }

    method RollingUpParameters(ghost env: Env) returns (r: Result<()>)
      requires Valid() && Interprets(env)
      modifies this`stack, this`stackIndex, this`visitedVariables, this`visitedFunctions
      ensures Valid() && Interprets(env)
      ensures visitedVariables == old(visitedVariables) && visitedFunctions == old(visitedFunctions)
      ensures match ReplaceBracket(env, old(Contents()))
              case Err(x) => r == Err(x)
              case Ok(s) => r.Ok? && Contents() == s
      decreases Unvisited(defs, visitedVariables, visitedFunctions), 3
    {
      hide EnvAt, BracketParameters, BracketValue, StackOf, Unvisited;
      var found := HowManyParameters();
      if found.Err? { return Err(found.error); }
      var (size, index) := found.value;
      ghost var vs := BracketParameters(Contents()).value.0;
      BracketFound(Contents());
      StackOfTop(stack, index);
      var value := CloseValue(env, stack[index - 1], size, index, vs);
      if value.Err? { return Err(value.error); }
      ReplaceTop(stack, index, Val(value.value));
      stack, stackIndex, r := stack[index - 1 := Val(value.value)], index, Ok(());
    }

    method CloseValue(ghost env: Env, bracket: Item, size: nat, index: nat, ghost vs: seq<Value>)
      returns (r: Result<Value>)
      requires Valid() && Interprets(env) && bracket.Bracket?
      requires size == |vs| && (size > 0 ==> index + 2 * size - 1 <= |stack|)
      requires forall i :: 0 <= i < size ==> stack[index + 2 * i] == Val(vs[i])
      modifies this`visitedVariables, this`visitedFunctions
      ensures visitedVariables == old(visitedVariables) && visitedFunctions == old(visitedFunctions)
      ensures r == BracketValue(env, bracket, vs)
      decreases Unvisited(defs, visitedVariables, visitedFunctions), 2
    {
      hide CallValue, EnvAt, StackOf, Unvisited;
      if bracket.isFunction {
        var args := Arguments(size, index, vs);
        EnvAtCall(defs, locals, visitedVariables, visitedFunctions, bracket.function_name, args);
        r := CallFunction(bracket.function_name, args);
        if r.Err? { return; }
      } else {
        if size == 0 { return Err(UnexpectedFinalBracket); }
        if size != 1 { return Err(UnexpectedSemicolon); }
        assert stack[index + 2 * 0] == Val(vs[0]);
        r := Ok(stack[index].v);
      }
      if bracket.sign { r := Ok(defs.negate(r.value)); }
    }

    static lemma BracketFound(s: Stack)
      ensures BracketParameters(s).Ok? ==>
              BracketParameters(s).value.1.Push? && BracketParameters(s).value.1.top.Bracket?
    {
      ParametersBracket(s, []);
    }

    static lemma ParametersBracket(s: Stack, later: seq<Value>)
      ensures Parameters(s, later).Ok? ==>
              Parameters(s, later).value.1.Push? && Parameters(s, later).value.1.top.Bracket?
      decreases s
    {
      if s.Push? && s.top.Val? && s.below.Push? && s.below.top.Semi? {
        ParametersBracket(s.below.below, [s.top.v] + later);
      }
    }

    // ---------- reading ----------

    /** Reads an operand or an opening bracket and pushes it; a closing bracket is left for the
        operator position. The result is false at the end of the string. */
    method ReadValueVariableOrFunction(ghost env: Env) returns (r: Result<bool>, bracket: bool)
      requires Valid() && Interprets(env)
      modifies this`stack, this`stackIndex, this`input, this`visitedVariables, this`visitedFunctions
      ensures Valid() && Interprets(env)
      ensures visitedVariables == old(visitedVariables) && visitedFunctions == old(visitedFunctions)
      ensures ReadTo(env, RunOperand(env, old(input), old(Contents())), r, bracket, input, Contents())
      ensures r == Ok(true) ==>
              Length(input) < Length(old(input)) || (!bracket && input == old(input) && AtClose(input))
      decreases Unvisited(defs, visitedVariables, visitedFunctions), 3
    {
      hide EnvAt, RunSigned, RunOperator, ReadTo;
      var sign := SignOf(input);
      input := AfterSign(input);
      r, bracket := ReadSigned(env, sign);
    }

    /** A run from before reading goes on from after reading. */
    static ghost predicate ReadTo(env: Env, run: Result<seq<Value>>, r: Result<bool>, bracket: bool, ts: Tokens,
                                  s: Stack) {
      run == match r
             case Err(x) => Err(x)
             case Ok(false) => Finish(env, s)
             case Ok(true) => if bracket then RunOperand(env, ts, s) else RunOperator(env, ts, s)
    }

    method ReadSigned(ghost env: Env, sign: Sign) returns (r: Result<bool>, bracket: bool)
      requires Valid() && Interprets(env)
      modifies this`stack, this`stackIndex, this`input, this`visitedVariables, this`visitedFunctions
      ensures Valid() && Interprets(env)
      ensures visitedVariables == old(visitedVariables) && visitedFunctions == old(visitedFunctions)
      ensures ReadTo(env, RunSigned(env, sign, old(input), old(Contents())), r, bracket, input, Contents())
      ensures r == Ok(true) ==>
              Length(input) < Length(old(input)) ||
              (sign == NoSign && !bracket && input == old(input) && AtClose(input))
      decreases Unvisited(defs, visitedVariables, visitedFunctions), 2
    {
      hide RunOperand, RunOperator, Finish;
      r, bracket := Ok(true), false;
      if input == End {
        r := if sign == NoSign then Ok(false) else Err(UnexpectedEnd);
      } else if input.head.Open? || input.head.Call? {
        PushItem(Bracket(input.head.Call?, if input.head.Call? then input.head.name else "", sign == Minus));
        bracket, input := true, input.tail;
      } else if input.head.Close? {
        if sign != NoSign { r := Err(UnexpectedFinalBracket); }
      } else if input.head.Number? {
        PushItem(Val(if sign == Minus then defs.negate(input.head.value) else input.head.value));
        input := input.tail;
      } else if input.head.Name? {
        var v := GetValueOfVariable(input.head.name);
        if v.Err? {
          r := Err(v.error);
        } else {
          PushItem(Val(if sign == Minus then defs.negate(v.value) else v.value));
          input := input.tail;
        }
      } else {
        r := Err(UnknownCharacter);
      }
    }

    /** Closes brackets until an operator, a semicolon or the end is found. */
    method ReadOperatorAndCheckFinalBracket(ghost env: Env) returns (r: Result<Next>)
      requires Valid() && Interprets(env)
      modifies this`stack, this`stackIndex, this`input, this`visitedVariables, this`visitedFunctions
      ensures Valid() && visitedVariables == old(visitedVariables) && visitedFunctions == old(visitedFunctions)
      ensures Length(input) <= Length(old(input)) &&
              (r.Ok? && AtClose(old(input)) ==> Length(input) < Length(old(input)))
      ensures match r
              case Err(x) => RunOperator(env, old(input), old(Contents())) == Err(x)
              case Ok(next) =>
                && (next.Found? ==> next.item.Semi? || next.item.Oper?)
                && RunOperator(env, old(input), old(Contents())) == Continue(env, next, input, Contents())
      decreases Unvisited(defs, visitedVariables, visitedFunctions), 5
    {
      hide EnvAt, CloseBracket, StackOf, Unvisited;
      while input.Cons? && input.head.Close?
        invariant Valid() && Interprets(env)
        invariant visitedVariables == old(visitedVariables) && visitedFunctions == old(visitedFunctions)
        invariant Length(input) <= Length(old(input))
        invariant AtClose(old(input)) && input != old(input) ==> Length(input) < Length(old(input))
        invariant RunOperator(env, input, Contents()) == RunOperator(env, old(input), old(Contents()))
        decreases Length(input)
      {
        input := input.tail;
        var closed := RollingUpFinalBracket(env);
        if closed.Err? { return Err(closed.error); }
      }
      if input == End { return Ok(Finished); }
      var token := input.head;
      match token
      case Semicolon => input := input.tail; return Ok(Found(Semi));
      case Name(_) => return Ok(Found(Oper(ShortMul)));
      case Call(_) => return Ok(Found(Oper(ShortMul)));
      case Operator(op) =>
        if op == ShortMul { return Err(UnknownOperator); }
        input := input.tail;
        return Ok(Found(Oper(op)));
      case _ => return Err(UnknownOperator);
    }

    method CheckIntegrityOfStack() returns (r: Result<()>)
      requires Valid()
      ensures r == if Clear(Contents()) then Ok(()) else Err(StackNotClear)
    {
      assert stack[..0] == [];
      for i := 0 to stackIndex
        invariant Clear(StackOf(stack[..i]))
      {
        StackOfTop(stack, i + 1);
        if !(stack[i].Val? || stack[i].Semi?) {
          NotClear(stack[..stackIndex], i);
          return Err(StackNotClear);
        }
      }
      return Ok(());
    }

    static lemma NotClear(s: seq<Item>, i: nat)
      requires i < |s| && !(s[i].Val? || s[i].Semi?)
      ensures !Clear(StackOf(s))
    {
      if i < |s| - 1 { NotClear(s[..|s| - 1], i); }
    }

    /** Keeps only the values. */
    method NormalizeStack() returns (vs: seq<Value>)
      requires Valid()
      modifies this`stack, this`stackIndex
      ensures Valid() && vs == Values(old(Contents()))
      ensures |stack| == |vs| && forall i :: 0 <= i < |vs| ==> stack[i] == Val(vs[i])
    {
      stack := stack[..stackIndex];
      vs := [];
      assert stack[..|stack|] == stack;
      var i := stackIndex;
      while i > 0
        invariant 0 <= i <= |stack| && |stack| == i + |vs|
        invariant stack[..i] == old(stack[..stackIndex])[..i]
        invariant forall k :: 0 <= k < |vs| ==> stack[i + k] == Val(vs[k])
        invariant Values(old(Contents())) == Values(StackOf(stack[..i])) + vs
      {
        StackOfTop(stack, i);
        i := i - 1;
        if stack[i].Val? {
          vs := [stack[i].v] + vs;
        } else {
          stack := stack[..i] + stack[i + 1..];
        }
      }
      stackIndex := |stack|;
    }

    // ---------- the main loop ----------

    method ParseInput(ghost env: Env) returns (r: Result<()>)
      requires Valid() && Interprets(env)
      modifies this`stack, this`stackIndex, this`input, this`visitedVariables, this`visitedFunctions
      ensures Valid() && Interprets(env)
      ensures visitedVariables == old(visitedVariables) && visitedFunctions == old(visitedFunctions)
      ensures match RunOperand(env, old(input), old(Contents()))
              case Err(x) => r == Err(x)
              case Ok(vs) => r.Ok? && Values(Contents()) == vs
      decreases Unvisited(defs, visitedVariables, visitedFunctions), 6
    {
      hide EnvAt, Finish, RunOperand, RunOperator, StackOf, Unvisited, Values;
      ghost var outcome := RunOperand(env, input, Contents());
      while true
        invariant Valid() && Interprets(env)
        invariant visitedVariables == old(visitedVariables) && visitedFunctions == old(visitedFunctions)
        invariant RunOperand(env, input, Contents()) == outcome
        decreases Length(input)
      {
        var more, bracket := ReadValueVariableOrFunction(env);
        if more.Err? { return Err(more.error); }
        var next := Finished;
        if more.value {
          if bracket { continue; }
          var found := ReadOperatorAndCheckFinalBracket(env);
          if found.Err? { return Err(found.error); }
          next := found.value;
        }
        if next == Finished {
          r := FinishInput(env);
          return;
        }
        r := PushNext(env, next.item);
        if r.Err? { return; }
      }
    }

    method FinishInput(ghost env: Env) returns (r: Result<()>)
      requires Valid() && Computes(env)
      modifies this`stack, this`stackIndex
      ensures Valid()
      ensures match Finish(env, old(Contents()))
              case Err(x) => r == Err(x)
              case Ok(vs) => r.Ok? && Values(Contents()) == vs
    {
      if stackIndex == 0 { return Err(NothingHasRead); }
      StackOfTop(stack, stackIndex);
      r := TryRollingUpStack(env);
      if r.Ok? { r := CheckIntegrityOfStack(); }
    }

    /** A semicolon rolls everything up, an operator what comes before it. */
    method PushNext(ghost env: Env, item: Item) returns (r: Result<()>)
      requires Valid() && Computes(env) && (item.Semi? || item.Oper?)
      modifies this`stack, this`stackIndex
      ensures Valid()
      ensures Continue(env, Found(item), input, old(Contents())) ==
              match r
              case Err(x) => Err(x)
              case Ok(_) => RunOperand(env, input, Contents())
    {
      hide RunOperand, RollUp, PushOperatorOn, StackOf;
      if item == Semi {
        EmptyStack(stack, stackIndex);
        if stackIndex == 0 { return Err(NothingHasRead); }
        r := TryRollingUpStack(env);
        if r.Err? { return; }
      }
      PushItem(item);
      r := TryRollingUpStackWithOperatorPriority(env);
    }

    /** Parsing a string yields what the machine yields for the parser's tables. */
    method Parse(ts: Tokens) returns (r: Result<seq<Value>>)
      requires Valid()
      modifies this
      ensures Valid() && locals == old(locals)
      ensures visitedVariables == old(visitedVariables) && visitedFunctions == old(visitedFunctions)
      ensures r == Run(EnvAt(defs, locals, visitedVariables, visitedFunctions), ts)
      decreases Unvisited(defs, visitedVariables, visitedFunctions), 7
    {
      hide EnvAt, RunOperand, Values, Unvisited, StackOf;
      stackIndex, input := 0, ts;
      EmptyStack(stack, 0);
      EnvAtComputes(defs, locals, visitedVariables, visitedFunctions);
      var parsed := ParseInput(EnvAt(defs, locals, visitedVariables, visitedFunctions));
      if parsed.Err? {
        stack, stackIndex := [], 0;
        return Err(parsed.error);
      }
      var vs := NormalizeStack();
      return Ok(vs);
    }
  }
}
