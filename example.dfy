/** The program of main_test.go, `(begin (define r 10) (* pi (* r r)))`,
    taken through the tokenizer, the reader and the evaluator. */
module Example {
  import opened Expr
  import opened Environment
  import Tokenizer
  import Reader
  import opened Semantics

  /** `(* r r)` with r bound to 10. */
  lemma EvalSquare(env: Bindings)
    requires ValidEnv(env)
    requires Lookup(env, "*") == Some(Proc(BinaryMul)) && Lookup(env, "r") == Some(Number(10.0))
    ensures Eval(env, List([Symbol("*"), Symbol("r"), Symbol("r")])) == (Ok(Number(100.0)), env)
  {
    EvalMul(env, Symbol("r"), Symbol("r"), 10.0, 10.0, env, env);
  }

  /** `(* pi (* r r))` with r bound to 10. */
  lemma EvalArea(env: Bindings)
    requires ValidEnv(env)
    requires Lookup(env, "*") == Some(Proc(BinaryMul)) && Lookup(env, "r") == Some(Number(10.0))
    requires Lookup(env, "pi") == Some(Number(3.141592))
    ensures Eval(env, List([Symbol("*"), Symbol("pi"), List([Symbol("*"), Symbol("r"), Symbol("r")])]))
      == (Ok(Number(314.1592)), env)
  {
    EvalSquare(env);
    EvalMul(env, Symbol("pi"), List([Symbol("*"), Symbol("r"), Symbol("r")]), 3.141592, 100.0, env, env);
  }

  /** `(begin a b)` where `a` and `b` evaluate to numbers. */
  lemma BeginOfTwo(env: Bindings, a: Exp, b: Exp, x: real, y: real, env2: Bindings)
    requires ValidEnv(env) && Lookup(env, "begin") == Some(Proc(Begin))
    requires EvalArgs(env, [a, b]) == (Ok([Number(x), Number(y)]), env2)
    ensures Eval(env, List([Symbol("begin"), a, b])) == (Ok(Number(y)), env2)
  {
    assert AllNumbers([Number(x), Number(y)]);
    EvalBegin(env, [a, b]);
    assert [Symbol("begin")] + [a, b] == [Symbol("begin"), a, b];
  }

  /** In the standard environment the program gives 314.1592 and leaves r
      bound to 10. */
  lemma EvalExample()
    ensures ValidEnv(StandardEnv())
    ensures Eval(StandardEnv(), Reader.ExampleProgram())
      == (Ok(Number(314.1592)), StandardEnv()["r" := Number(10.0)])
  {
    var env := StandardEnv();
    StandardEnvContents();
    var env1 := env["r" := Number(10.0)];
    BindValid(env, "r", Number(10.0));
    var def := List([Symbol("define"), Symbol("r"), Number(10.0)]);
    var area := List([Symbol("*"), Symbol("pi"), List([Symbol("*"), Symbol("r"), Symbol("r")])]);
    EvalDefine(env, "r", Number(10.0), []);
    assert [Symbol("define"), Symbol("r"), Number(10.0)] + [] == def.items;
    assert Eval(env, def) == (Ok(Number(10.0)), env1);
    EvalArea(env1);
    EvalArgsPair(env, def, area, Number(10.0), Number(314.1592), env1, env1);
    BeginOfTwo(env, def, area, 10.0, 314.1592, env1);
  }

  /** The text of the program is tokenized into the seventeen tokens of
      main_test.go, read as one list of three items, and evaluated to
      314.1592. The text and the tokens are parameters fixed by the
      requires, so that the literals are unfolded here and not in the
      callers of this lemma. */
  lemma RunExample(input: string, tokens: seq<string>)
    requires input == "(begin (define r 10) (* pi (* r r)))"
    requires tokens == ["(", "begin", "(", "define", "r", "10", ")",
                        "(", "*", "pi", "(", "*", "r", "r", ")", ")", ")"]
    ensures Tokenizer.Tokenize(input) == Ok(tokens)
    ensures Reader.First(tokens) == Ok(Reader.ExampleProgram())
    ensures ValidEnv(StandardEnv())
    ensures Eval(StandardEnv(), Reader.ExampleProgram()).0 == Ok(Number(314.1592))
  {
    Tokenizer.TokenizeExample(input);
    Reader.ReadExample(tokens);
    EvalExample();
  }
}
