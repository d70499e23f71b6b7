/** The interpreter of main.go:121-189: `eval` and `evalList` as methods
    that read and update the environment in place, each proved to compute
    what the functions of module Semantics describe. */
module Interp {
  import opened Expr
  import opened Environment
  import Semantics

  /** The outcome of the arguments evaluated so far followed by those still
      to evaluate. */
  function Continue(done: seq<Exp>, r: (Result<seq<Exp>>, Bindings)): (Result<seq<Exp>>, Bindings)
  {
    match r.0
      case Err(err) => (Err(err), r.1)
      case Ok(vs) => (Ok(done + vs), r.1)
  }

  /** Going on from nothing done leaves the outcome as it is. The loops
      below start this way; naming the step keeps it out of their own
      proof obligations. */
  lemma ContinueNothing(r: (Result<seq<Exp>>, Bindings))
    ensures Continue([], r) == r
  {
    if r.0.Ok? {
      assert [] + r.0.value == r.0.value;
    }
  }

  /** One more argument evaluated: its value joins those done. */
  lemma ContinueStep(env: Bindings, args: seq<Exp>, k: nat, done: seq<Exp>, v: Exp, env1: Bindings)
    requires ValidEnv(env) && k < |args|
    requires Semantics.Eval(env, args[k]) == (Ok(v), env1)
    ensures Semantics.EvalArgs(env1, args[k + 1..]).1 == Semantics.EvalArgs(env, args[k..]).1
    ensures Continue(done, Semantics.EvalArgs(env, args[k..])) ==
            Continue(done + [v], Semantics.EvalArgs(env1, args[k + 1..]))
  {
    assert args[k..][0] == args[k] && args[k..][1..] == args[k + 1..];
    var rest := Semantics.EvalArgs(env1, args[k + 1..]);
    if rest.0.Ok? {
      assert done + ([v] + rest.0.value) == done + [v] + rest.0.value;
    }
  }

  /** A failing argument ends the evaluation with its error. */
  lemma ContinueFail(env: Bindings, args: seq<Exp>, k: nat, done: seq<Exp>)
    requires ValidEnv(env) && k < |args|
    requires Semantics.Eval(env, args[k]).0.Err?
    ensures Continue(done, Semantics.EvalArgs(env, args[k..])) ==
            (Err(Semantics.Eval(env, args[k]).0.error), Semantics.Eval(env, args[k]).1)
  {
    assert args[k..][0] == args[k];
  }

  class Interpreter {
    const env: Env

    ghost predicate Valid()
      reads this, env
    {
      ValidEnv(env.envmap)
    }

    /** NewInterpreter (main.go:127-130). */
    constructor ()
      ensures Valid() && fresh(env) && env.envmap == StandardEnv()
    {
      env := new Env();
      StandardEnvContents();
    }

    /** eval (main.go:132-148). */
    method Eval(exp: Exp) returns (r: Result<Exp>)
      requires Valid()
      modifies env
      ensures Valid()
      ensures (r, env.envmap) == Semantics.Eval(old(env.envmap), exp)
      decreases Semantics.Size(exp), 2
    {
      match exp {
        case Symbol(name) =>
          r := if name in env.envmap then Ok(env.envmap[name]) else Err(UnboundSymbol(name));
        case Number(_) =>
          r := Ok(exp);
        case List(items) =>
          r := EvalList(items);
        case Proc(_) =>
          r := Err(NotEvaluable);
      }
    }

    /** evalList (main.go:150-189): the switch on the head of the list. */
    method EvalList(list: seq<Exp>) returns (r: Result<Exp>)
      requires Valid()
      modifies env
      ensures Valid()
      ensures (r, env.envmap) == Semantics.EvalList(old(env.envmap), list)
      decreases Semantics.SizeOf(list) + 1, 1
    {
      if |list| == 0 {
        return Err(EmptyList);
      }
      match list[0] {
        case Symbol(head) =>
          if head == "define" {
            r := EvalDefine(list);
          } else {
            r := EvalCall(list);
          }
        case Proc(BinaryMul) =>
          r := EvalBinary(list);
        case Proc(Begin) =>
          r := EvalVariadic(list);
        case _ =>
          return Err(NotCallable);
      }
    }

    /** The `define` special form (main.go:157-163). */
    method EvalDefine(list: seq<Exp>) returns (r: Result<Exp>)
      requires Valid() && list != [] && list[0] == Symbol("define")
      modifies env
      ensures Valid()
      ensures (r, env.envmap) == Semantics.EvalList(old(env.envmap), list)
      decreases Semantics.SizeOf(list) + 1, 0
    {
      if |list| < 3 || !list[1].Symbol? {
        return Err(MalformedDefine);
      }
      var sym := list[1].name;
      Semantics.SizeOfElement(list, 2);
      var evaled := Eval(list[2]);
      if evaled.Ok? {
        env.envmap := env.envmap[sym := evaled.value];
      }
      return evaled;
    }

    /** A symbol head other than `define` (main.go:164-171): look up the
        procedure, evaluate the arguments left to right, then evaluate the
        list of the procedure and the argument values. An unbound head is
        reported once the arguments have been evaluated. */
    method EvalCall(list: seq<Exp>) returns (r: Result<Exp>)
      requires Valid() && list != [] && list[0].Symbol? && list[0].name != "define"
      modifies env
      ensures Valid()
      ensures (r, env.envmap) == Semantics.EvalList(old(env.envmap), list)
      decreases Semantics.SizeOf(list) + 1, 0
    {
      ghost var env0 := env.envmap;
      var head := list[0].name;
      var proc := env.Find(head);
      var args := list[1..];
      var values: seq<Exp> := [];
      var k := 0;
      assert args[0..] == args;
      ContinueNothing(Semantics.EvalArgs(env0, args));
      while k < |args|
        invariant 0 <= k <= |args|
        invariant ValidEnv(env.envmap)
        invariant |values| == k
        invariant forall i | 0 <= i < |values| :: IsValue(values[i])
        invariant Semantics.EvalArgs(env0, args) ==
                  Continue(values, Semantics.EvalArgs(env.envmap, args[k..]))
        decreases |args| - k
      {
        Semantics.SizeOfElement(list, k + 1);
        ghost var before := env.envmap;
        var value := Eval(args[k]);
        if value.Err? {
          ContinueFail(before, args, k, values);
          return value;
        }
        ContinueStep(before, args, k, values, value.value, env.envmap);
        values := values + [value.value];
        k := k + 1;
      }
      assert args[k..] == [];
      assert values + [] == values;
      if proc.None? {
        return Err(UnboundSymbol(head));
      }
      Semantics.SizeOfValues([proc.value] + values);
      Semantics.SizeOfAtLeast(args);
      r := Eval(List([proc.value] + values));
    }

    /** A BinaryFunc head (main.go:173-177): the two operands must already be
        Numbers. */
    method EvalBinary(list: seq<Exp>) returns (r: Result<Exp>)
      requires Valid() && list != [] && list[0] == Proc(BinaryMul)
      modifies env
      ensures Valid()
      ensures (r, env.envmap) == Semantics.EvalList(old(env.envmap), list)
    {
      if |list| < 2 {
        return Err(MissingOperand);
      }
      if !list[1].Number? {
        return Err(NotANumber);
      }
      var x := list[1].value;
      if |list| < 3 {
        return Err(MissingOperand);
      }
      if !list[2].Number? {
        return Err(NotANumber);
      }
      var y := list[2].value;
      ghost var spec := Semantics.Mul(list[1..]);
      assert list[1..][0] == list[1] && list[1..][1] == list[2];
      assert spec.Ok? && spec.value == Number(x * y);
      return Ok(Number(x * y));
    }

    /** A VariadicFunc head (main.go:179-184): evaluate every argument, then
        `begin` returns the last value. */
    method EvalVariadic(list: seq<Exp>) returns (r: Result<Exp>)
      requires Valid() && list != [] && list[0] == Proc(Begin)
      modifies env
      ensures Valid()
      ensures (r, env.envmap) == Semantics.EvalList(old(env.envmap), list)
      decreases Semantics.SizeOf(list) + 1, 0
    {
      ghost var env0 := env.envmap;
      var args := list[1..];
      var exps: seq<Exp> := [];
      var k := 0;
      assert args[0..] == args;
      ContinueNothing(Semantics.EvalArgs(env0, args));
      while k < |args|
        invariant 0 <= k <= |args|
        invariant ValidEnv(env.envmap)
        invariant |exps| == k
        invariant Semantics.EvalArgs(env0, args) ==
                  Continue(exps, Semantics.EvalArgs(env.envmap, args[k..]))
        decreases |args| - k
      {
        Semantics.SizeOfElement(list, k + 1);
        ghost var before := env.envmap;
        var value := Eval(args[k]);
        if value.Err? {
          ContinueFail(before, args, k, exps);
          return value;
        }
        ContinueStep(before, args, k, exps, value.value, env.envmap);
        exps := exps + [value.value];
        k := k + 1;
      }
      assert args[k..] == [];
      assert exps + [] == exps;
      if |exps| == 0 {
        return Err(NoArguments);
      }
      return Ok(exps[|exps| - 1]);
    }
  }
}
