/** The environment of main.go:80-105: a flat, mutable map from names to
    expressions, created holding the standard bindings. */
module Environment {
  import opened Expr

  type Bindings = map<string, Exp>

  /** What the interpreter keeps in an environment: evaluation only ever
      stores Numbers and procedures. */
  predicate ValidEnv(m: Bindings)
  {
    forall name | name in m :: IsValue(m[name])
  }

  /** standardEnv (main.go:91-97). */
  function StandardEnv(): Bindings
  {
    map["pi" := Number(3.141592), "*" := Proc(BinaryMul), "begin" := Proc(Begin)]
  }

  /** A map index in Go: the bound expression, or nothing (Go's nil) when the
      name is unbound. */
  function Lookup(m: Bindings, name: string): (r: Option<Exp>)
    ensures r.Some? <==> name in m
    ensures r.Some? ==> r.value == m[name]
  {
    if name in m then Some(m[name]) else None
  }

  /** The standard environment binds exactly `pi`, `*` and `begin`, each to a
      value. */
  lemma StandardEnvContents()
    ensures ValidEnv(StandardEnv())
    ensures StandardEnv().Keys == {"pi", "*", "begin"}
    ensures Lookup(StandardEnv(), "pi") == Some(Number(3.141592))
    ensures Lookup(StandardEnv(), "*") == Some(Proc(BinaryMul))
    ensures Lookup(StandardEnv(), "begin") == Some(Proc(Begin))
  {
  }

  /** Binding a name: the name now finds the new expression and every other
      name finds what it found before. */
  lemma LookupAfterBind(m: Bindings, name: string, e: Exp, other: string)
    ensures Lookup(m[name := e], name) == Some(e)
    ensures other != name ==> Lookup(m[name := e], other) == Lookup(m, other)
  {
  }

  /** Binding a value keeps the environment valid. */
  lemma BindValid(m: Bindings, name: string, e: Exp)
    requires ValidEnv(m) && IsValue(e)
    ensures ValidEnv(m[name := e])
  {
  }

  /** Env (main.go:82-84) with NewEnv, update and find. */
  class Env {
    var envmap: Bindings

    /** NewEnv (main.go:86-89). */
    constructor ()
      ensures envmap == StandardEnv()
    {
      envmap := StandardEnv();
    }

    /** update (main.go:99-101). */
    method Update(name: string, exp: Exp)
      modifies this
      ensures envmap == old(envmap)[name := exp]
      ensures Find(name) == Some(exp)
      ensures forall other | other != name :: Find(other) == old(Find(other))
    {
      envmap := envmap[name := exp];
    }

    /** find (main.go:103-105). */
    function Find(name: string): (r: Option<Exp>)
      reads this
      ensures r.Some? <==> name in envmap
      ensures r.Some? ==> r.value == envmap[name]
    {
      Lookup(envmap, name)
    }
  }
}
