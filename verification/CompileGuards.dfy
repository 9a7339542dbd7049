/** What the guards of the compiler let through, and what passing them guarantees.

    `compute` is a root that some contexts do not have. The guard reads the author's text: inside a where-
    predicate the name is a field of the host, and a loop variable of that name hides the root.
 */
module CompileGuards {
  import opened Cel
  import opened Wrappers
  import opened HostScope
  import opened HostsWhere
  import opened CompileCache
  import Reads
  import Seal

  // ---- When a request is answered with a program --------------------------------------------

  /** The text names `compute` where that namespace does not exist. */
  predicate OutOfScope<P, Env>(c: Compiler<P, Env>, r: Request) {
    && r.compute != Available && (forall i :: 0 <= i < |r.loopNames| ==> r.loopNames[i] != COMPUTE)
    && match c.parse(r.expr) case Some(e) => COMPUTE in Seal.Idents(e) case None => false
  }

  /** The compiled text touches nothing that is rendered per host, where no host is bound. */
  ghost predicate HostFree<P, Env>(c: Compiler<P, Env>, r: Request, compiled: string) {
    r.stance.scope == HostBound ||
    match c.parse(compiled)
    case None => true
    case Some(t) =>
      && !Touches(SOULPRINT, {SELF}, t, Loops(r.loopNames))
      && !Touches(INPUT, NamesIn(r.stance.variantInputs), t, Loops(r.loopNames))
      && !Touches(VARS, NamesIn(r.stance.variantVars), t, Loops(r.loopNames))
  }

  /** A program comes back if and only if no guard applies, the where-calls can be rewritten and the
      environment of the loop names yields it. */
  lemma OkExactly<P, Env>(c: Compiler<P, Env>, r: Request, p: P)
    ensures CompileUncached(c, r) == Ok(p) <==>
      && !c.unsupported(r.expr) && !c.internalIdents(r.expr) && !OutOfScope(c, r)
      && c.rewrite(r.expr, r.allowHosts).Some? && c.extend(r.loopNames).Some?
      && (var compiled := c.rewrite(r.expr, r.allowHosts).value;
          && !c.registerHosts(r.expr, compiled, r.allowRegisterHosts) && !c.registerByIndex(r.expr, compiled)
          && HostFree(c, r, compiled)
          && c.program(c.extend(r.loopNames).value, compiled) == Some(p))
  {
    LoopsNameIt(r.loopNames);
    if c.rewrite(r.expr, r.allowHosts).Some? {
      var compiled := c.rewrite(r.expr, r.allowHosts).value;
      if c.parse(compiled).Some? { GuardAnswers(c.parse(compiled).value, r.stance, Loops(r.loopNames)); }
    }
  }

  lemma LoopsNameIt(names: seq<string>)
    ensures COMPUTE in names <==> exists i :: 0 <= i < |names| && names[i] == COMPUTE
  {
  }

  /** Text that does not mention `compute`, or whose loop binds it, is never refused on that account. */
  lemma OtherTextIsUntouched<P, Env>(c: Compiler<P, Env>, r: Request)
    requires COMPUTE in r.loopNames || c.parse(r.expr).None? || COMPUTE !in Seal.Idents(c.parse(r.expr).value)
    ensures CompileUncached(c, r) == CompileUncached(c, r.(compute := Available))
  {
  }

  // ---- A text that does not name a root does not depend on it ---------------------------------

  /** The activations bind every other name alike. */
  ghost predicate AgreeBut(n: string, a: Activation, b: Activation) {
    forall m :: m != n ==> Reads.SameName(m, a, b)
  }

  /** Outside a predicate the name does not occur; inside one it can only be a field of the host or a
      variable of the predicate's own, which is bound. */
  ghost predicate Unnamed(e: Expr, n: string, host: Option<Value>, locals: set<string>, env: Scope) {
    (host.None? ==> n !in Seal.Idents(e)) && (host.Some? ==> locals <= env.Keys)
  }

  ghost predicate UnnamedSeq(es: seq<Expr>, n: string, host: Option<Value>, locals: set<string>, env: Scope) {
    (host.None? ==> n !in Seal.IdentsSeq(es)) && (host.Some? ==> locals <= env.Keys)
  }

  lemma {:induction false} MeaningIgnores(e: Expr, n: string, host: Option<Value>, locals: set<string>, a: Activation,
                                          b: Activation, env: Scope, ops: Ops, parse: Parser)
    requires n !in ROOTS && AgreeBut(n, a, b) && Unnamed(e, n, host, locals, env)
    ensures Meaning(e, host, locals, a, env, ops, parse) == Meaning(e, host, locals, b, env, ops, parse)
    decreases if host.None? then 1 else 0, e, 1
  {
    match e
    case Lit(_) =>
    case Ident(m) => if m != n { assert Reads.SameName(m, a, b); }
    case Select(o, _) => MeaningIgnores(o, n, host, locals, a, b, env, ops, parse);
    case Index(o, k) =>
      MeaningIgnores(o, n, host, locals, a, b, env, ops, parse);
      MeaningIgnores(k, n, host, locals, a, b, env, ops, parse);
    case Has(x) => HasIgnores(x, n, host, locals, a, b, env, ops, parse);
    case Default(x, y) =>
      HasIgnores(x, n, host, locals, a, b, env, ops, parse);
      MeaningIgnores(x, n, host, locals, a, b, env, ops, parse);
      MeaningIgnores(y, n, host, locals, a, b, env, ops, parse);
    case Node(_, kids) => SeqIgnores(kids, n, host, locals, a, b, env, ops, parse);
    case Compr(_, t, x, bodies) =>
      MeaningIgnores(t, n, host, locals, a, b, env, ops, parse);
      var xs := Elements(Meaning(t, host, locals, a, env, ops, parse), ops);
      if xs.Some? { BodiesIgnore(bodies, x, xs.value, n, host, locals, a, b, env, ops, parse); }
    case Where(_, _) => WhereIgnores(e, n, host, locals, a, b, env, ops, parse);
  }

  lemma {:induction false} WhereIgnores(e: Expr, n: string, host: Option<Value>, locals: set<string>, a: Activation,
                                        b: Activation, env: Scope, ops: Ops, parse: Parser)
    requires e.Where?
    requires n !in ROOTS && AgreeBut(n, a, b) && Unnamed(e, n, host, locals, env)
    ensures Meaning(e, host, locals, a, env, ops, parse) == Meaning(e, host, locals, b, env, ops, parse)
    decreases if host.None? then 1 else 0, e, 0
  {
    if host.None? && PredicateOf(e.args, parse).Some? {
      MeaningIgnores(e.target, n, None, {}, a, b, env, ops, parse);
      var xs := Elements(ReceiverOf(e.target, Meaning(e.target, None, {}, a, env, ops, parse)), ops);
      if xs.Some? { AnswersIgnore(PredicateOf(e.args, parse).value, xs.value, n, a, b, env, ops, parse); }
    }
  }

  lemma {:induction false} HasIgnores(x: Expr, n: string, host: Option<Value>, locals: set<string>, a: Activation,
                                      b: Activation, env: Scope, ops: Ops, parse: Parser)
    requires n !in ROOTS && AgreeBut(n, a, b) && Unnamed(x, n, host, locals, env)
    ensures MeaningOfHas(x, host, locals, a, env, ops, parse) == MeaningOfHas(x, host, locals, b, env, ops, parse)
    decreases if host.None? then 1 else 0, x, 0
  {
    if x.Select? { MeaningIgnores(x.operand, n, host, locals, a, b, env, ops, parse); }
  }

  lemma {:induction false} SeqIgnores(es: seq<Expr>, n: string, host: Option<Value>, locals: set<string>, a: Activation,
                                      b: Activation, env: Scope, ops: Ops, parse: Parser)
    requires n !in ROOTS && AgreeBut(n, a, b) && UnnamedSeq(es, n, host, locals, env)
    ensures MeaningSeq(es, host, locals, a, env, ops, parse) == MeaningSeq(es, host, locals, b, env, ops, parse)
    decreases if host.None? then 1 else 0, es, 0
  {
    if es != [] {
      MeaningIgnores(es[0], n, host, locals, a, b, env, ops, parse);
      SeqIgnores(es[1..], n, host, locals, a, b, env, ops, parse);
    }
  }

  lemma {:induction false} BodiesIgnore(bodies: seq<Expr>, x: string, xs: seq<Value>, n: string, host: Option<Value>,
                                        locals: set<string>, a: Activation, b: Activation, env: Scope, ops: Ops,
                                        parse: Parser)
    requires n !in ROOTS && AgreeBut(n, a, b) && UnnamedSeq(bodies, n, host, locals, env)
    ensures MeaningBodies(bodies, x, xs, host, locals, a, env, ops, parse)
         == MeaningBodies(bodies, x, xs, host, locals, b, env, ops, parse)
    decreases if host.None? then 1 else 0, bodies, 0
  {
    if bodies != [] {
      EachIgnores(bodies[0], x, xs, n, host, locals, a, b, env, ops, parse);
      BodiesIgnore(bodies[1..], x, xs, n, host, locals, a, b, env, ops, parse);
    }
  }

  lemma {:induction false} EachIgnores(body: Expr, x: string, xs: seq<Value>, n: string, host: Option<Value>,
                                       locals: set<string>, a: Activation, b: Activation, env: Scope, ops: Ops,
                                       parse: Parser)
    requires n !in ROOTS && AgreeBut(n, a, b) && Unnamed(body, n, host, locals, env)
    ensures MeaningEach(body, x, xs, host, locals, a, env, ops, parse)
         == MeaningEach(body, x, xs, host, locals, b, env, ops, parse)
    decreases if host.None? then 1 else 0, body, 2, |xs|
  {
    if xs != [] {
      MeaningIgnores(body, n, host, locals + {x}, a, b, env[x := xs[0]], ops, parse);
      EachIgnores(body, x, xs[1..], n, host, locals, a, b, env, ops, parse);
    }
  }

  lemma {:induction false} AnswersIgnore(p: Expr, hosts: seq<Value>, n: string, a: Activation, b: Activation,
                                         env: Scope,
                                         ops: Ops, parse: Parser)
    requires n !in ROOTS && AgreeBut(n, a, b)
    ensures HostsWhere.Answers(p, hosts, a, env, ops, parse) == HostsWhere.Answers(p, hosts, b, env, ops, parse)
    decreases 0, p, 2, |hosts|
  {
    if hosts != [] {
      MeaningIgnores(p, n, Some(hosts[0]), {}, a, b, env, ops, parse);
      AnswersIgnore(p, hosts[1..], n, a, b, env, ops, parse);
    }
  }

  /** A program compiled where there is no `compute` comes from a text whose meaning does not depend on it,
      unless a loop variable has that name. */
  lemma CompiledIgnoresCompute<P, Env>(c: Compiler<P, Env>, r: Request, e: Expr, a: Activation, b: Activation,
                                       env: Scope,
                                       ops: Ops, parse: Parser)
    requires CompileUncached(c, r).Ok? && r.compute != Available && COMPUTE !in r.loopNames
    requires c.parse(r.expr) == Some(e) && AgreeBut(COMPUTE, a, b)
    ensures Meaning(e, None, {}, a, env, ops, parse) == Meaning(e, None, {}, b, env, ops, parse)
  {
    OkExactly(c, r, CompileUncached(c, r).program);
    MeaningIgnores(e, COMPUTE, None, {}, a, b, env, ops, parse);
  }
}
