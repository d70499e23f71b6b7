/** What `Interpreter.eval` and `Interpreter.evalList` (main.go:132-189)
    compute, as functions from an environment and an expression to a result
    and the environment afterwards. */
module Semantics {
  import opened Expr
  import opened Environment

  // ---------------------------------------------------------------------
  // A size that decreases along every evaluation step

  /** Symbols weigh 2 and values 1, so that a list whose head symbol has been
      replaced by its value and whose arguments have been evaluated weighs
      less than the list it came from. */
  function Size(e: Exp): (n: nat)
    ensures n >= 1
    ensures IsValue(e) ==> n == 1
  {
    match e
      case Symbol(_) => 2
      case Number(_) => 1
      case Proc(_) => 1
      case List(items) => 1 + SizeOf(items)
  }

  function SizeOf(items: seq<Exp>): nat
  {
    if items == [] then 0 else Size(items[0]) + SizeOf(items[1..])
  }

  lemma {:induction false} SizeOfElement(items: seq<Exp>, i: nat)
    requires i < |items|
    ensures Size(items[i]) <= SizeOf(items)
  {
    if i > 0 {
      SizeOfElement(items[1..], i - 1);
    }
  }

  lemma {:induction false} SizeOfAtLeast(items: seq<Exp>)
    ensures SizeOf(items) >= |items|
  {
    if items != [] {
      SizeOfAtLeast(items[1..]);
    }
  }

  lemma {:induction false} SizeOfValues(vals: seq<Exp>)
    requires forall i | 0 <= i < |vals| :: IsValue(vals[i])
    ensures SizeOf(vals) == |vals|
  {
    if vals != [] {
      SizeOfValues(vals[1..]);
    }
  }

  // ---------------------------------------------------------------------
  // Evaluation

  /** eval (main.go:132-148): a symbol evaluates to its binding, a number to
      itself, a list through evalList, and anything else to Go's nil. */
  function Eval(env: Bindings, e: Exp): (r: (Result<Exp>, Bindings))
    requires ValidEnv(env)
    ensures ValidEnv(r.1)
    ensures r.0.Ok? ==> IsValue(r.0.value)
    decreases Size(e), 1
  {
    match e
      case Symbol(name) =>
        (if name in env then Ok(env[name]) else Err(UnboundSymbol(name)), env)
      case Number(_) => (Ok(e), env)
      case List(items) => EvalList(env, items)
      case Proc(_) => (Err(NotEvaluable), env)
  }

  /** evalList (main.go:150-189), dispatching on the head of the list. */
  function EvalList(env: Bindings, items: seq<Exp>): (r: (Result<Exp>, Bindings))
    requires ValidEnv(env)
    ensures ValidEnv(r.1)
    ensures r.0.Ok? ==> IsValue(r.0.value)
    decreases SizeOf(items) + 1, 0
  {
    if items == [] then (Err(EmptyList), env)
    else match items[0]
      case Symbol(head) =>
        if head == "define" then
          // main.go:157-163
          if |items| < 3 || !items[1].Symbol? then (Err(MalformedDefine), env)
          else
            SizeOfElement(items, 2);
            var (value, env1) := Eval(env, items[2]);
            (match value
              case Err(err) => (Err(err), env1)
              case Ok(v) => (Ok(v), env1[items[1].name := v]))
        else
          // main.go:165-170: look the procedure up, evaluate the arguments,
          // then evaluate the list of the procedure and the argument values
          var (args, env1) := EvalArgs(env, items[1..]);
          (match args
            case Err(err) => (Err(err), env1)
            case Ok(vals) =>
              if head !in env then (Err(UnboundSymbol(head)), env1)
              else
              var proc := env[head];
              SizeOfValues([proc] + vals);
              SizeOfAtLeast(items[1..]);
              assert SizeOf(items) == 2 + SizeOf(items[1..]);
              assert Size(List([proc] + vals)) == 2 + |vals|;
              Eval(env1, List([proc] + vals)))
      case Proc(BinaryMul) =>
        // main.go:173-177: the operands are not evaluated
        (Mul(items[1..]), env)
      case Proc(Begin) =>
        // main.go:179-184 with the VariadicFunc of main.go:95
        var (args, env1) := EvalArgs(env, items[1..]);
        (match args
          case Err(err) => (Err(err), env1)
          case Ok(vals) => (if vals == [] then Err(NoArguments) else Ok(vals[|vals| - 1]), env1))
      case _ => (Err(NotCallable), env)
  }

  /** The loops of main.go:167-169 and main.go:181-183: the arguments
      evaluated left to right, each in the environment the previous one left. */
  function EvalArgs(env: Bindings, args: seq<Exp>): (r: (Result<seq<Exp>>, Bindings))
    requires ValidEnv(env)
    ensures ValidEnv(r.1)
    ensures r.0.Ok? ==> |r.0.value| == |args| && forall i | 0 <= i < |args| :: IsValue(r.0.value[i])
    decreases SizeOf(args) + 1, 0
  {
    if args == [] then (Ok([]), env)
    else
      SizeOfElement(args, 0);
      var (first, env1) := Eval(env, args[0]);
      match first
        case Err(err) => (Err(err), env1)
        case Ok(v) =>
          var (rest, env2) := EvalArgs(env1, args[1..]);
          match rest
            case Err(err) => (Err(err), env2)
            case Ok(vs) => (Ok([v] + vs), env2)
  }

  /** The BinaryFunc branch (main.go:174-177) applied to `*` (main.go:94):
      both operands must be Numbers. */
  function Mul(operands: seq<Exp>): (r: Result<Exp>)
    ensures r.Ok? <==> |operands| >= 2 && operands[0].Number? && operands[1].Number?
    ensures r.Ok? ==> r.value == Number(operands[0].value * operands[1].value)
  {
    if |operands| < 1 then Err(MissingOperand)
    else if !operands[0].Number? then Err(NotANumber)
    else if |operands| < 2 then Err(MissingOperand)
    else if !operands[1].Number? then Err(NotANumber)
    else Ok(Number(operands[0].value * operands[1].value))
  }

  // ---------------------------------------------------------------------
  // A reference for applying a procedure

  /** Calling a procedure value directly on argument values: `*` multiplies
      its first two arguments, `begin` returns its last one. */
  function Apply(proc: Exp, vals: seq<Exp>): Result<Exp>
  {
    match proc
      case Proc(BinaryMul) => Mul(vals)
      case Proc(Begin) => if vals == [] then Err(NoArguments) else Ok(vals[|vals| - 1])
      case _ => Err(NotCallable)
  }

  predicate AllNumbers(vals: seq<Exp>)
  {
    forall i | 0 <= i < |vals| :: vals[i].Number?
  }

  /** Evaluating Numbers a second time, as the VariadicFunc branch does
      with already evaluated arguments, is the identity. */
  lemma {:induction false} EvalArgsNumbers(env: Bindings, vals: seq<Exp>)
    requires ValidEnv(env) && AllNumbers(vals)
    ensures EvalArgs(env, vals) == (Ok(vals), env)
  {
    if vals != [] {
      EvalArgsNumbers(env, vals[1..]);
      assert [vals[0]] + vals[1..] == vals;
    }
  }

  /** The second evaluation of a procedure value gives Go's nil. */
  lemma EvalArgsProc(env: Bindings, vals: seq<Exp>, i: nat)
    requires ValidEnv(env)
    requires i < |vals| && (forall j | 0 <= j < i :: vals[j].Number?) && vals[i].Proc?
    ensures EvalArgs(env, vals).0 == Err(NotEvaluable) && EvalArgs(env, vals).1 == env
  {
    if i == 0 {
      assert vals != [] && Eval(env, vals[0]) == (Err(NotEvaluable), env);
      assert EvalArgs(env, vals).0 == Err(NotEvaluable);
      assert EvalArgs(env, vals).1 == env;
    } else {
      assert AllNumbers(vals[..i]);
      EvalArgsNumbers(env, vals[..i]);
      EvalArgsAppend(env, vals[..i], vals[i..]);
      assert vals[..i] + vals[i..] == vals;
      EvalArgsProc(env, vals[i..], 0);
    }
  }

  /** Re-dispatch (main.go:165-170): evaluating the list of a procedure
      value and argument values applies the procedure to the arguments,
      except that `begin` fails on a procedure among its arguments. */
  lemma RedispatchAgrees(env: Bindings, proc: Exp, vals: seq<Exp>)
    requires ValidEnv(env) && IsValue(proc)
    requires forall i | 0 <= i < |vals| :: IsValue(vals[i])
    requires proc == Proc(Begin) ==> AllNumbers(vals)
    ensures Eval(env, List([proc] + vals)) == (Apply(proc, vals), env)
  {
    var items := [proc] + vals;
    assert items[1..] == vals;
    if proc == Proc(Begin) {
      EvalArgsNumbers(env, vals);
    }
  }

  // ---------------------------------------------------------------------
  // Left to right

  /** The outcome of evaluating more arguments after those that gave `r`. */
  function Then(r: (Result<seq<Exp>>, Bindings), more: seq<Exp>): (Result<seq<Exp>>, Bindings)
    requires ValidEnv(r.1)
  {
    match r.0
      case Err(err) => r
      case Ok(done) =>
        var (rest, env) := EvalArgs(r.1, more);
        match rest
          case Err(err) => (Err(err), env)
          case Ok(vs) => (Ok(done + vs), env)
  }

  /** Arguments are evaluated left to right: evaluating `a + b` evaluates
      `a`, then `b` in the environment `a` left, and stops at the first
      failure. */
  lemma {:induction false} EvalArgsAppend(env: Bindings, a: seq<Exp>, b: seq<Exp>)
    requires ValidEnv(env)
    ensures EvalArgs(env, a + b) == Then(EvalArgs(env, a), b)
    decreases |a|
  {
    if a == [] {
      assert a + b == b;
      var (rest, env1) := EvalArgs(env, b);
      if rest.Ok? {
        assert [] + rest.value == rest.value;
      }
    } else {
      assert (a + b)[0] == a[0] && (a + b)[1..] == a[1..] + b;
      var (first, env1) := Eval(env, a[0]);
      if first.Ok? {
        EvalArgsAppend(env1, a[1..], b);
        var (mid, env2) := EvalArgs(env1, a[1..]);
        if mid.Ok? {
          var (rest, env3) := EvalArgs(env2, b);
          if rest.Ok? {
            assert [first.value] + (mid.value + rest.value) == [first.value] + mid.value + rest.value;
          }
        }
      }
    }
  }

  // ---------------------------------------------------------------------
  // Properties of eval

  /** A number evaluates to itself, a symbol to its binding, and a symbol
      without a binding fails; none of these changes the environment. */
  lemma EvalAtoms(env: Bindings, v: real, name: string)
    requires ValidEnv(env)
    ensures Eval(env, Number(v)) == (Ok(Number(v)), env)
    ensures Eval(env, Symbol(name)).1 == env
    ensures Eval(env, Symbol(name)).0.Ok? <==> Lookup(env, name).Some?
    ensures Lookup(env, name).Some? ==> Eval(env, Symbol(name)).0 == Ok(Lookup(env, name).value)
    ensures Lookup(env, name).None? ==> Eval(env, Symbol(name)).0 == Err(UnboundSymbol(name))
  {
  }

  /** `pi` evaluates to 3.141592 in the standard environment. */
  lemma EvalPi()
    ensures ValidEnv(StandardEnv())
    ensures Eval(StandardEnv(), Symbol("pi")) == (Ok(Number(3.141592)), StandardEnv())
  {
    StandardEnvContents();
  }

  /** `(define s e)` evaluates e, binds its value to s and returns it,
      leaving every other binding as evaluating e left it. */
  lemma EvalDefine(env: Bindings, s: string, e: Exp, extra: seq<Exp>)
    requires ValidEnv(env)
    ensures var r := Eval(env, List([Symbol("define"), Symbol(s), e] + extra));
      var (value, env1) := Eval(env, e);
      && r.0 == value
      && (value.Ok? ==> r.1 == env1[s := value.value])
      && (value.Err? ==> r.1 == env1)
  {
    var items := [Symbol("define"), Symbol(s), e] + extra;
    assert items[0] == Symbol("define") && items[1] == Symbol(s) && items[2] == e;
  }

  /** `define` needs a symbol and an expression after it. */
  lemma EvalDefineMalformed(env: Bindings, items: seq<Exp>)
    requires ValidEnv(env)
    requires items != [] && items[0] == Symbol("define")
    requires |items| < 3 || !items[1].Symbol?
    ensures Eval(env, List(items)) == (Err(MalformedDefine), env)
  {
  }

  /** Expressions with no `define` anywhere in them. */
  predicate NoDefine(e: Exp)
  {
    match e
      case List(items) =>
        && (items == [] || items[0] != Symbol("define"))
        && forall i | 0 <= i < |items| :: NoDefine(items[i])
      case _ => true
  }

  /** Evaluating an expression without `define` leaves the environment
      unchanged. */
  lemma {:induction false} EvalNoDefine(env: Bindings, e: Exp)
    requires ValidEnv(env) && NoDefine(e)
    ensures Eval(env, e).1 == env
    decreases Size(e), 1
  {
    if e.List? {
      EvalListNoDefine(env, e.items);
    }
  }

  lemma {:induction false} EvalListNoDefine(env: Bindings, items: seq<Exp>)
    requires ValidEnv(env)
    requires items == [] || items[0] != Symbol("define")
    requires forall i | 0 <= i < |items| :: NoDefine(items[i])
    ensures EvalList(env, items).1 == env
    decreases SizeOf(items) + 1, 0
  {
    if items != [] {
      SizeOfAtLeast(items[1..]);
      var args := items[1..];
      assert forall i | 0 <= i < |args| :: NoDefine(args[i]) by {
        forall i | 0 <= i < |args| ensures NoDefine(args[i]) {
          assert args[i] == items[i + 1];
        }
      }
      match items[0]
        case Symbol(head) =>
          if head != "define" {
            EvalArgsNoDefine(env, args);
            var (r, env1) := EvalArgs(env, args);
            if r.Ok? && head in env {
              var list := [env[head]] + r.value;
              SizeOfValues(list);
              SizeOfAtLeast(args);
              assert SizeOf(items) == 2 + SizeOf(args);
              assert forall i | 0 <= i < |list| :: IsValue(list[i]);
              EvalListNoDefine(env, list);
            }
          }
        case Proc(Begin) =>
          EvalArgsNoDefine(env, args);
        case _ =>
    }
  }

  lemma {:induction false} EvalArgsNoDefine(env: Bindings, args: seq<Exp>)
    requires ValidEnv(env)
    requires forall i | 0 <= i < |args| :: NoDefine(args[i])
    ensures EvalArgs(env, args).1 == env
    decreases SizeOf(args) + 1, 0
  {
    if args != [] {
      SizeOfElement(args, 0);
      EvalNoDefine(env, args[0]);
      if Eval(env, args[0]).0.Ok? {
        EvalArgsNoDefine(env, args[1..]);
      }
    }
  }

  /** One argument. */
  lemma EvalArgsOne(env: Bindings, b: Exp, vb: Exp, env1: Bindings)
    requires ValidEnv(env)
    requires Eval(env, b) == (Ok(vb), env1)
    ensures EvalArgs(env, [b]) == (Ok([vb]), env1)
  {
    assert [b][1..] == [];
    assert [b][0] == b;
    assert [vb] + [] == [vb];
  }

  /** One argument in front of others: it is evaluated first, and the
      others in the environment it left. */
  lemma {:induction false} EvalArgsCons(env: Bindings, a: Exp, rest: seq<Exp>, va: Exp, vs: seq<Exp>, env1: Bindings, env2: Bindings)
    requires ValidEnv(env)
    requires Eval(env, a) == (Ok(va), env1)
    requires ValidEnv(env1) && EvalArgs(env1, rest) == (Ok(vs), env2)
    ensures EvalArgs(env, [a] + rest) == (Ok([va] + vs), env2)
  {
    assert ([a] + rest)[0] == a && ([a] + rest)[1..] == rest;
  }

  /** Two arguments: the first is evaluated, then the second in the
      environment the first left. */
  lemma {:induction false} EvalArgsPair(env: Bindings, a: Exp, b: Exp, va: Exp, vb: Exp, env1: Bindings, env2: Bindings)
    requires ValidEnv(env)
    requires Eval(env, a) == (Ok(va), env1)
    requires ValidEnv(env1) && Eval(env1, b) == (Ok(vb), env2)
    ensures EvalArgs(env, [a, b]) == (Ok([va, vb]), env2)
  {
    EvalArgsOne(env1, b, vb, env2);
    EvalArgsCons(env, a, [b], va, [vb], env1, env2);
    assert [a] + [b] == [a, b];
    assert [va] + [vb] == [va, vb];
  }

  /** `(* a b)` evaluates a, then b, and multiplies the two numbers. */
  lemma EvalMul(env: Bindings, a: Exp, b: Exp, x: real, y: real, env1: Bindings, env2: Bindings)
    requires ValidEnv(env) && Lookup(env, "*") == Some(Proc(BinaryMul))
    requires Eval(env, a) == (Ok(Number(x)), env1)
    requires Eval(env1, b) == (Ok(Number(y)), env2)
    ensures Eval(env, List([Symbol("*"), a, b])) == (Ok(Number(x * y)), env2)
  {
    var items := [Symbol("*"), a, b];
    assert items[1..] == [a, b];
    EvalArgsPair(env, a, b, Number(x), Number(y), env1, env2);
    RedispatchAgrees(env2, Proc(BinaryMul), [Number(x), Number(y)]);
    var ops := [Number(x), Number(y)];
    assert |ops| == 2 && ops[0] == Number(x) && ops[1] == Number(y);
    assert Mul(ops).Ok? && Mul(ops).value == Number(x * y);
    assert Apply(Proc(BinaryMul), [Number(x), Number(y)]) == Ok(Number(x * y));
    assert items[0] == Symbol("*");
    assert "*" != "define";
    assert "*" in env && env["*"] == Proc(BinaryMul);
    assert EvalList(env, items) == Eval(env2, List([Proc(BinaryMul)] + [Number(x), Number(y)]));
  }

  /** `(begin a1 … ak)` evaluates its arguments left to right, each seeing
      the bindings the earlier ones made, and returns the value of ak. */
  lemma EvalBegin(env: Bindings, args: seq<Exp>)
    requires ValidEnv(env) && Lookup(env, "begin") == Some(Proc(Begin))
    requires EvalArgs(env, args).0.Ok?
    requires AllNumbers(EvalArgs(env, args).0.value)
    ensures var (vals, env1) := EvalArgs(env, args);
      Eval(env, List([Symbol("begin")] + args)) ==
        (if args == [] then Err(NoArguments) else Ok(vals.value[|args| - 1]), env1)
  {
    var items := [Symbol("begin")] + args;
    assert items[1..] == args;
    var (vals, env1) := EvalArgs(env, args);
    RedispatchAgrees(env1, Proc(Begin), vals.value);
  }

  /** Where an argument value of `begin` is a procedure, the second
      evaluation of the re-dispatch stops at it. Go gives nil for that
      argument and goes on, so `(begin * 1)` is 1 in Go. */
  lemma EvalBeginProcedure(env: Bindings, args: seq<Exp>, i: nat)
    requires ValidEnv(env) && Lookup(env, "begin") == Some(Proc(Begin))
    requires EvalArgs(env, args).0.Ok? && i < |args|
    requires forall j | 0 <= j < i :: EvalArgs(env, args).0.value[j].Number?
    requires EvalArgs(env, args).0.value[i].Proc?
    ensures Eval(env, List([Symbol("begin")] + args)) == (Err(NotEvaluable), EvalArgs(env, args).1)
  {
    var items := [Symbol("begin")] + args;
    assert items[1..] == args;
    var (vals, env1) := EvalArgs(env, args);
    var again := [Proc(Begin)] + vals.value;
    assert again[1..] == vals.value;
    EvalArgsProc(env1, vals.value, i);
    assert Eval(env1, List(again)) == (Err(NotEvaluable), env1);
    assert items[0] == Symbol("begin") && "begin" != "define";
    assert "begin" in env && env["begin"] == Proc(Begin);
    assert EvalList(env, items) == Eval(env1, List(again));
  }

  /** A binding made by an earlier argument of `begin` is seen by the later
      ones: `(begin (define s e) s)` gives the value of e. */
  lemma DefineThenUse(env: Bindings, s: string, e: Exp, v: real, env1: Bindings)
    requires ValidEnv(env) && Lookup(env, "begin") == Some(Proc(Begin))
    requires Eval(env, e) == (Ok(Number(v)), env1)
    ensures Eval(env, List([Symbol("begin"), List([Symbol("define"), Symbol(s), e]), Symbol(s)]))
      == (Ok(Number(v)), env1[s := Number(v)])
  {
    var def := List([Symbol("define"), Symbol(s), e]);
    EvalDefine(env, s, e, []);
    assert [Symbol("define"), Symbol(s), e] + [] == def.items;
    var env2 := env1[s := Number(v)];
    assert Eval(env, def) == (Ok(Number(v)), env2);
    assert Eval(env2, Symbol(s)) == (Ok(Number(v)), env2);
    EvalArgsPair(env, def, Symbol(s), Number(v), Number(v), env2, env2);
    EvalBegin(env, [def, Symbol(s)]);
    assert [Symbol("begin")] + [def, Symbol(s)] == [Symbol("begin"), def, Symbol(s)];
  }
}
