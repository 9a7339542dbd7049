/** Rendering a post-module predicate on the Keeper: every read of the host context outside the open
    registers is substituted by its value on that host.

    The contract is an equivalence. For every value the open registers can take, the rendered tree
    evaluates on the Soul, where only those registers need be visible, to what the original evaluates
    to against the host's full context, an error included (`RenderPreservesMeaning`).
 */
module Render {
  import opened Seqs
  import opened Cel
  import opened Wrappers
  import opened Literals
  import opened Names
  import opened Grouping

  const ERROR_FIELD := "keeper_eval_error"

  /** open: the registers that stay open. context: the unbound names that read the host context.
      host: that context on one host, WITHOUT the open registers. */
  datatype Renderer = Renderer(open: set<string>, context: set<string>, host: Activation, ops: Ops)

  // ---- What is read -----------------------------------------------------------------------

  predicate IsRegisterRoot(e: Expr, sc: set<string>) {
    IsIdent(e, REGISTER) && REGISTER !in sc
  }

  predicate IsOpenRegister(r: Renderer, e: Expr, sc: set<string>) {
    e.Select? && IsRegisterRoot(e.operand, sc) && e.field in r.open
  }

  /** Whether e reads the open set or an iteration variable bound outside e; local holds the
      variables e binds itself. */
  predicate ReadsOpen(r: Renderer, e: Expr, sc: set<string>, local: set<string>)
    decreases e, 0
  {
    match e
    case Lit(_) => false
    case Ident(n) => n !in local && (n in sc || n == REGISTER)
    case Select(o, f) =>
      if IsIdent(o, REGISTER) && REGISTER !in local && REGISTER !in sc then f in r.open
      else ReadsOpen(r, o, sc, local)
    case Index(o, k) => ReadsOpen(r, o, sc, local) || ReadsOpen(r, k, sc, local)
    case Has(x) => ReadsOpen(r, x, sc, local)
    case Default(x, y) => ReadsOpen(r, x, sc, local) || ReadsOpen(r, y, sc, local)
    case Node(_, kids) => ReadsOpenSeq(r, kids, sc, local)
    case Compr(_, t, x, bodies) => ReadsOpen(r, t, sc, local) || ReadsOpenSeq(r, bodies, sc, local + {x})
    case Where(t, args) => ReadsOpen(r, t, sc, local) || ReadsOpenSeq(r, args, sc, local)
  }

  predicate ReadsOpenSeq(r: Renderer, es: seq<Expr>, sc: set<string>, local: set<string>)
    decreases es, 0
  {
    es != [] && (ReadsOpen(r, es[0], sc, local) || ReadsOpenSeq(r, es[1..], sc, local))
  }

  /** A read the Keeper resolves whole: a context root, a field of one, or an index into one by a key
      that reads nothing open. */
  predicate IsClosedRead(r: Renderer, e: Expr, sc: set<string>) {
    match e
    case Ident(n) => n != REGISTER && n !in sc && n in r.context
    case Select(o, f) => if IsRegisterRoot(o, sc) then f !in r.open else IsClosedRead(r, o, sc)
    case Index(o, k) => IsClosedRead(r, o, sc) && !ReadsOpen(r, k, sc, {})
    case _ => false
  }

  /** What e reads of the host context outside the open set, every name resolved by scope. */
  function ContextReads(r: Renderer, e: Expr, sc: set<string>): seq<string>
    decreases e, 0
  {
    match e
    case Lit(_) => []
    case Ident(n) => if n !in sc && n in r.context then [n] else []
    case Select(o, f) =>
      if IsOpenRegister(r, e, sc) then []
      else if IsRegisterRoot(o, sc) then [REGISTER + "." + f]
      else ContextReads(r, o, sc)
    case Index(o, k) => ContextReads(r, o, sc) + ContextReads(r, k, sc)
    case Has(x) => ContextReads(r, x, sc)
    case Default(x, y) => ContextReads(r, x, sc) + ContextReads(r, y, sc)
    case Node(_, kids) => ContextReadsSeq(r, kids, sc)
    case Compr(_, t, x, bodies) => ContextReads(r, t, sc) + ContextReadsSeq(r, bodies, sc + {x})
    case Where(t, args) => ContextReads(r, t, sc) + ContextReadsSeq(r, args, sc)
  }

  function ContextReadsSeq(r: Renderer, es: seq<Expr>, sc: set<string>): seq<string>
    decreases es, 0
  {
    if es == [] then [] else ContextReads(r, es[0], sc) + ContextReadsSeq(r, es[1..], sc)
  }

  /** `register` read without a field after it: refused before anything is substituted. */
  predicate NakedRegister(e: Expr, sc: set<string>)
    decreases e, 0
  {
    match e
    case Lit(_) => false
    case Ident(_) => IsRegisterRoot(e, sc)
    case Select(o, _) => !IsRegisterRoot(o, sc) && NakedRegister(o, sc)
    case Index(o, k) => NakedRegister(o, sc) || NakedRegister(k, sc)
    case Has(x) => NakedRegister(x, sc)
    case Default(x, y) => NakedRegister(x, sc) || NakedRegister(y, sc)
    case Node(_, kids) => NakedRegisterSeq(kids, sc)
    case Compr(_, t, x, bodies) => NakedRegister(t, sc) || NakedRegisterSeq(bodies, sc + {x})
    case Where(t, args) => NakedRegister(t, sc) || NakedRegisterSeq(args, sc)
  }

  predicate NakedRegisterSeq(es: seq<Expr>, sc: set<string>)
    decreases es, 0
  {
    es != [] && (NakedRegister(es[0], sc) || NakedRegisterSeq(es[1..], sc))
  }

  // ---- The Keeper's own evaluation of a closed read ---------------------------------------

  function FreshIdent(e: Expr): (x: string)
    ensures x !in Mentions(e)
  {
    FirstFree("v", Mentions(e), 0)
  }

  /** `[0].map(v, e)[0]`, with v an identifier e does not mention. */
  function InComprehension(e: Expr): Expr {
    Index(Compr(Transform, Node(ListOp, [Lit(VInt(0))]), FreshIdent(e), [e]), Lit(VInt(0)))
  }

  lemma OneBody(e: Expr, x: string, xs: seq<Value>, act: Activation, env: Scope, ops: Ops)
    ensures EvalBodies([e], x, xs, act, env, ops) == [EvalEach(e, x, xs, act, env, ops)]
  {
    var none: seq<Expr> := [];
    assert [e][1..] == none && EvalBodies(none, x, xs, act, env, ops) == [];
  }

  /** The wrapping evaluates to what it wraps: no binding is captured and no error is lost. */
  lemma InComprehensionSame(e: Expr, act: Activation, env: Scope, ops: Ops)
    ensures Eval(InComprehension(e), act, env, ops) == Eval(e, act, env, ops)
  {
    var x, zero := FreshIdent(e), VInt(0);
    var range := Node(ListOp, [Lit(zero)]);
    OneElementRange(zero, act, env, ops);
    UnmentionedBinding(e, act, env, x, zero, ops);
    MappedOnce(e, range, x, zero, act, env, ops);
    OnlyElement(Eval(e, act, env, ops), ops);
  }

  lemma OneElementRange(v: Value, act: Activation, env: Scope, ops: Ops)
    ensures Eval(Node(ListOp, [Lit(v)]), act, env, ops) == Val(VList([v]))
  {
    EvalSeqOne(Lit(v), act, env, ops);
    NodeEvaluates(ListOp, [Lit(v)], [Val(v)], act, env, ops);
    StrictOne(v);
  }

  lemma MappedOnce(e: Expr, range: Expr, x: string, v: Value, act: Activation, env: Scope, ops: Ops)
    requires Eval(range, act, env, ops) == Val(VList([v]))
    requires Eval(e, act, env[x := v], ops) == Eval(e, act, env, ops)
    ensures Eval(Compr(Transform, range, x, [e]), act, env, ops) == ListOf(Strict([Eval(e, act, env, ops)]))
  {
    var row := EvalEach(e, x, [v], act, env, ops);
    assert row == [Eval(e, act, env, ops)] by { EvalEachAt(e, x, [v], act, env, ops); }
    OneBody(e, x, [v], act, env, ops);
    ComprEvaluates(Transform, range, x, [e], [v], act, env, ops);
  }

  lemma OnlyElement(o: Outcome, ops: Ops)
    ensures IndexOf(ListOf(Strict([o])), Val(VInt(0)), ops) == o
  {
    if o.Val? { StrictOne(o.v); }
  }

  function KeeperEval(r: Renderer, e: Expr): Outcome {
    Eval(InComprehension(e), r.host, map[], r.ops)
  }

  // ---- The rewrite ------------------------------------------------------------------------

  /** `dyn({}).keeper_eval_error`: raises where the Soul reaches it, and nowhere else. */
  function ErrorTerm(): Expr {
    Select(Dyn(Node(MapOp, [])), ERROR_FIELD)
  }

  ghost function Substituted(o: Outcome): Expr {
    if o.Err? then ErrorTerm() else Dyn(Literal(o.v))
  }

  function Presence(r: Renderer, x: Expr): Expr {
    var o := KeeperEval(r, Has(x));
    if o.Val? && o.v.VBool? then Lit(o.v) else ErrorTerm()
  }

  /** e with every closed read of the host context substituted by its value on this host. */
  ghost function Subst(r: Renderer, e: Expr, sc: set<string>): Expr
    decreases e, 0
  {
    if IsClosedRead(r, e, sc) then Substituted(KeeperEval(r, e))
    else
      match e
      case Lit(_) => e
      case Ident(_) => e
      case Select(o, f) => Select(Subst(r, o, sc), f)
      case Index(o, k) => Index(Subst(r, o, sc), Subst(r, k, sc))
      case Has(x) => if IsClosedRead(r, x, sc) then Presence(r, x) else Has(Subst(r, x, sc))
      case Default(x, y) =>
        if !IsClosedRead(r, x, sc) then Default(Subst(r, x, sc), Subst(r, y, sc))
        else if x.Ident? then Substituted(KeeperEval(r, x))
        else Cond(Presence(r, x), Substituted(KeeperEval(r, x)), Subst(r, y, sc))
      case Node(op, kids) => Node(op, SubstSeq(r, kids, sc))
      case Compr(macro, t, x, bodies) => Compr(macro, Subst(r, t, sc), x, SubstSeq(r, bodies, sc + {x}))
      case Where(t, args) => Where(Subst(r, t, sc), SubstSeq(r, args, sc))
  }

  ghost function SubstSeq(r: Renderer, es: seq<Expr>, sc: set<string>): (out: seq<Expr>)
    ensures |out| == |es|
    decreases es, 0
  {
    if es == [] then [] else [Subst(r, es[0], sc)] + SubstSeq(r, es[1..], sc)
  }

  /** The rewrite met a value text cannot carry; the rendering is refused. */
  ghost predicate Refuses(r: Renderer, e: Expr, sc: set<string>)
    decreases e, 0
  {
    if IsClosedRead(r, e, sc) then NoLiteral(KeeperEval(r, e))
    else
      match e
      case Lit(_) => false
      case Ident(_) => false
      case Select(o, _) => Refuses(r, o, sc)
      case Index(o, k) => Refuses(r, o, sc) || Refuses(r, k, sc)
      case Has(x) => !IsClosedRead(r, x, sc) && Refuses(r, x, sc)
      case Default(x, y) =>
        Refuses(r, x, sc) || (!(IsClosedRead(r, x, sc) && x.Ident?) && Refuses(r, y, sc))
      case Node(_, kids) => RefusesSeq(r, kids, sc)
      case Compr(_, t, x, bodies) => Refuses(r, t, sc) || RefusesSeq(r, bodies, sc + {x})
      case Where(t, args) => Refuses(r, t, sc) || RefusesSeq(r, args, sc)
  }

  ghost predicate RefusesSeq(r: Renderer, es: seq<Expr>, sc: set<string>)
    decreases es, 0
  {
    es != [] && (Refuses(r, es[0], sc) || RefusesSeq(r, es[1..], sc))
  }

  ghost predicate NoLiteral(o: Outcome) {
    o.Val? && !Carries(o.v)
  }

  // ---- Contexts ---------------------------------------------------------------------------

  /** Two activations agree on one field of `register`: present in both with one value, or in neither. */
  predicate SameRegister(a: Activation, b: Activation, f: string) {
    && REGISTER in a && a[REGISTER].VMap? && REGISTER in b && b[REGISTER].VMap?
    && SelectOf(Val(a[REGISTER]), f) == SelectOf(Val(b[REGISTER]), f)
  }

  /** full is the host's context with the open registers filled in: it differs from the Keeper's view
      of that host in the open registers alone. */
  ghost predicate FillsOpen(r: Renderer, full: Activation) {
    && full.Keys == r.host.Keys <= r.context
    && (forall n :: n in full && n != REGISTER ==> full[n] == r.host[n])
    && (forall f :: f !in r.open ==> SameRegister(r.host, full, f))
  }

  /** What the Soul has agrees with full on the open registers. Nothing is asked of the rest. */
  ghost predicate ShowsOpen(r: Renderer, full: Activation, soul: Activation) {
    && soul.Keys <= r.context
    && REGISTER in full && full[REGISTER].VMap? && REGISTER in soul && soul[REGISTER].VMap?
    && forall f :: f in r.open ==> SameRegister(full, soul, f)
  }

  // ---- A closed read has one value --------------------------------------------------------

  /** An expression that reads nothing open evaluates alike at the Keeper, with no variable in scope,
      and in the full context under any scope. */
  lemma {:induction false} KeyIsStable(r: Renderer, e: Expr, full: Activation, env: Scope, local: Scope)
    requires FillsOpen(r, full)
    requires !ReadsOpen(r, e, env.Keys, local.Keys)
    ensures Eval(e, r.host, local, r.ops) == Eval(e, full, env + local, r.ops)
    decreases e, 1
  {
    match e
    case Lit(_) =>
    case Ident(_) =>
    case Select(o, f) =>
      if IsIdent(o, REGISTER) && REGISTER !in local && REGISTER !in env {
        assert SameRegister(r.host, full, f);
      } else {
        KeyIsStable(r, o, full, env, local);
      }
    case Index(o, k) =>
      KeyIsStable(r, o, full, env, local);
      KeyIsStable(r, k, full, env, local);
    case Has(x) => HasIsStable(r, x, full, env, local);
    case Default(x, y) =>
      HasIsStable(r, x, full, env, local);
      KeyIsStable(r, x, full, env, local);
      KeyIsStable(r, y, full, env, local);
    case Node(_, kids) => KeySeqIsStable(r, kids, full, env, local);
    case Compr(_, _, _, _) => ComprIsStable(r, e, full, env, local);
    case Where(_, _) =>
  }

  lemma {:induction false} ComprIsStable(r: Renderer, e: Expr, full: Activation, env: Scope, local: Scope)
    requires FillsOpen(r, full)
    requires e.Compr? && !ReadsOpen(r, e, env.Keys, local.Keys)
    ensures Eval(e, r.host, local, r.ops) == Eval(e, full, env + local, r.ops)
    decreases e, 0
  {
    KeyIsStable(r, e.target, full, env, local);
    var xs := Elements(Eval(e.target, r.host, local, r.ops), r.ops);
    if xs.Some? { KeyBodiesAreStable(r, e.bodies, e.iter, xs.value, full, env, local); }
  }

  lemma {:induction false} HasIsStable(r: Renderer, x: Expr, full: Activation, env: Scope, local: Scope)
    requires FillsOpen(r, full)
    requires !ReadsOpen(r, x, env.Keys, local.Keys)
    ensures Eval(Has(x), r.host, local, r.ops) == Eval(Has(x), full, env + local, r.ops)
    decreases x, 0
  {
    if x.Select? {
      if IsIdent(x.operand, REGISTER) && REGISTER !in local && REGISTER !in env {
        assert SameRegister(r.host, full, x.field);
      } else {
        KeyIsStable(r, x.operand, full, env, local);
      }
    }
  }

  lemma {:induction false} KeySeqIsStable(r: Renderer, es: seq<Expr>, full: Activation, env: Scope, local: Scope)
    requires FillsOpen(r, full)
    requires !ReadsOpenSeq(r, es, env.Keys, local.Keys)
    ensures EvalSeq(es, r.host, local, r.ops) == EvalSeq(es, full, env + local, r.ops)
    decreases es, 0
  {
    if es != [] {
      KeyIsStable(r, es[0], full, env, local);
      KeySeqIsStable(r, es[1..], full, env, local);
    }
  }

  lemma {:induction false} KeyBodiesAreStable(r: Renderer, bodies: seq<Expr>, x: string, xs: seq<Value>,
                                              full: Activation, env: Scope, local: Scope)
    requires FillsOpen(r, full)
    requires !ReadsOpenSeq(r, bodies, env.Keys, local.Keys + {x})
    ensures EvalBodies(bodies, x, xs, r.host, local, r.ops) == EvalBodies(bodies, x, xs, full, env + local, r.ops)
    decreases bodies, 0
  {
    if bodies != [] {
      forall i | 0 <= i < |xs|
        ensures Eval(bodies[0], r.host, local[x := xs[i]], r.ops)
             == Eval(bodies[0], full, (env + local)[x := xs[i]], r.ops)
      {
        var inner := local[x := xs[i]];
        assert inner.Keys == local.Keys + {x};
        KeyIsStable(r, bodies[0], full, env, inner);
        assert env + inner == (env + local)[x := xs[i]];
      }
      EvalEachSame(bodies[0], r.host, local, bodies[0], full, env + local, x, xs, r.ops);
      KeyBodiesAreStable(r, bodies[1..], x, xs, full, env, local);
    }
  }

  /** The Keeper's value of a closed read is the value the original reads there, whatever the open
      registers hold and whatever variables are in scope. */
  lemma {:induction false} ClosedReadIsStable(r: Renderer, e: Expr, full: Activation, env: Scope)
    requires FillsOpen(r, full)
    requires IsClosedRead(r, e, env.Keys)
    ensures Eval(e, r.host, map[], r.ops) == Eval(e, full, env, r.ops)
  {
    match e
    case Ident(_) =>
    case Select(o, f) =>
      if IsRegisterRoot(o, env.Keys) {
        assert SameRegister(r.host, full, f);
      } else {
        ClosedReadIsStable(r, o, full, env);
      }
    case Index(o, k) =>
      ClosedReadIsStable(r, o, full, env);
      var none: Scope := map[];
      assert none.Keys == {} && env + none == env;
      KeyIsStable(r, k, full, env, none);
  }

  /** So is its presence. */
  lemma ClosedHasIsStable(r: Renderer, x: Expr, full: Activation, env: Scope)
    requires FillsOpen(r, full)
    requires IsClosedRead(r, x, env.Keys)
    ensures Eval(Has(x), r.host, map[], r.ops) == Eval(Has(x), full, env, r.ops)
  {
    if x.Select? {
      if IsRegisterRoot(x.operand, env.Keys) {
        assert SameRegister(r.host, full, x.field);
      } else {
        ClosedReadIsStable(r, x.operand, full, env);
      }
    }
  }

  // ---- The substituted terms --------------------------------------------------------------

  lemma SubstitutedEvaluates(o: Outcome, act: Activation, env: Scope, ops: Ops)
    requires !NoLiteral(o)
    ensures Eval(Substituted(o), act, env, ops) == o
  {
    if o.Val? {
      LiteralReadsBack(o.v, act, env, ops);
      assert EvalSeq([Literal(o.v)], act, env, ops) == [o];
    } else {
      ErrorTermErrs(act, env, ops);
    }
  }

  lemma ErrorTermErrs(act: Activation, env: Scope, ops: Ops)
    ensures Eval(ErrorTerm(), act, env, ops).Err?
  {
    var empty := Node(MapOp, []);
    assert Eval(empty, act, env, ops) == Val(VMap(map[]));
    assert EvalSeq([empty], act, env, ops) == [Val(VMap(map[]))];
  }

  lemma PresenceEvaluates(r: Renderer, x: Expr, act: Activation, env: Scope)
    ensures Eval(Presence(r, x), act, env, r.ops) == Eval(Has(x), r.host, map[], r.ops)
  {
    InComprehensionSame(Has(x), r.host, map[], r.ops);
    ErrorTermErrs(act, env, r.ops);
  }

  // ---- The equivalence --------------------------------------------------------------------

  /** For every value of the open registers and every scope of iteration variables, the rendered tree
      gives on the Soul what the original gives in the full context, an error included. */
  lemma {:induction false} RenderPreservesMeaning(r: Renderer, e: Expr, full: Activation, soul: Activation, env: Scope)
    requires FillsOpen(r, full) && ShowsOpen(r, full, soul)
    requires Compiles(e) && !NakedRegister(e, env.Keys) && !Refuses(r, e, env.Keys)
    ensures Eval(Subst(r, e, env.Keys), soul, env, r.ops) == Eval(e, full, env, r.ops)
    decreases e, 1
  {
    var sc := env.Keys;
    if IsClosedRead(r, e, sc) {
      InComprehensionSame(e, r.host, map[], r.ops);
      ClosedReadIsStable(r, e, full, env);
      SubstitutedEvaluates(KeeperEval(r, e), soul, env, r.ops);
    } else {
      match e
      case Lit(_) =>
      case Ident(_) =>
      case Select(o, f) => SelectPreserved(r, o, f, full, soul, env);
      case Index(o, k) =>
        RenderPreservesMeaning(r, o, full, soul, env);
        RenderPreservesMeaning(r, k, full, soul, env);
      case Has(x) =>
        if IsClosedRead(r, x, sc) {
          ClosedHasIsStable(r, x, full, env);
          PresenceEvaluates(r, x, soul, env);
        } else {
          SelectPreserved(r, x.operand, x.field, full, soul, env);
        }
      case Default(x, y) => DefaultPreserved(r, x, y, full, soul, env);
      case Node(_, kids) => SeqPreserved(r, kids, full, soul, env);
      case Compr(_, t, x, bodies) =>
        RenderPreservesMeaning(r, t, full, soul, env);
        var xs := Elements(Eval(t, full, env, r.ops), r.ops);
        if xs.Some? { BodiesPreserved(r, bodies, x, xs.value, full, soul, env); }
      case Where(_, _) =>
    }
  }

  /** A select the rewrite keeps: of an open register, or of an operand that is itself kept. Its
      presence test is kept with it. */
  lemma {:induction false} SelectPreserved(r: Renderer, o: Expr, f: string, full: Activation, soul: Activation,
                                           env: Scope)
    requires FillsOpen(r, full) && ShowsOpen(r, full, soul)
    requires !IsClosedRead(r, Select(o, f), env.Keys)
    requires Compiles(o) && !NakedRegister(Select(o, f), env.Keys) && !Refuses(r, Select(o, f), env.Keys)
    ensures Subst(r, Select(o, f), env.Keys) == Select(Subst(r, o, env.Keys), f)
    ensures SelectOf(Eval(Subst(r, o, env.Keys), soul, env, r.ops), f) == SelectOf(Eval(o, full, env, r.ops), f)
    ensures HasOf(Eval(Subst(r, o, env.Keys), soul, env, r.ops), f) == HasOf(Eval(o, full, env, r.ops), f)
    decreases o, 2
  {
    if IsRegisterRoot(o, env.Keys) {
      assert SameRegister(full, soul, f);
    } else {
      RenderPreservesMeaning(r, o, full, soul, env);
    }
  }

  lemma {:induction false} DefaultPreserved(r: Renderer, x: Expr, y: Expr, full: Activation, soul: Activation,
                                            env: Scope)
    requires FillsOpen(r, full) && ShowsOpen(r, full, soul)
    requires Compiles(Default(x, y)) && !NakedRegister(Default(x, y), env.Keys) && !Refuses(r, Default(x, y), env.Keys)
    ensures Eval(Subst(r, Default(x, y), env.Keys), soul, env, r.ops) == Eval(Default(x, y), full, env, r.ops)
    decreases Default(x, y), 0
  {
    var sc := env.Keys;
    RenderPreservesMeaning(r, x, full, soul, env);
    if !IsClosedRead(r, x, sc) {
      RenderPreservesMeaning(r, y, full, soul, env);
      if x.Select? { SelectPreserved(r, x.operand, x.field, full, soul, env); }
    } else if !x.Ident? {
      RenderPreservesMeaning(r, y, full, soul, env);
      ClosedHasIsStable(r, x, full, env);
      PresenceEvaluates(r, x, soul, env);
      var c, t, f := Presence(r, x), Subst(r, x, sc), Subst(r, y, sc);
      CondEvaluates(c, t, f, soul, env, r.ops);
    }
  }

  lemma CondEvaluates(c: Expr, t: Expr, f: Expr, act: Activation, env: Scope, ops: Ops)
    ensures Eval(Cond(c, t, f), act, env, ops)
         == CondOf(Eval(c, act, env, ops), Eval(t, act, env, ops), Eval(f, act, env, ops))
  {
    var x, y, z := Eval(c, act, env, ops), Eval(t, act, env, ops), Eval(f, act, env, ops);
    EvalSeqThree(c, t, f, act, env, ops);
    NodeEvaluates(CondOp, [c, t, f], [x, y, z], act, env, ops);
    CondApplies(x, y, z, ops);
  }

  lemma CondApplies(x: Outcome, y: Outcome, z: Outcome, ops: Ops)
    ensures Apply(CondOp, [x, y, z], ops) == CondOf(x, y, z)
  {
  }

  lemma {:induction false} SeqPreserved(r: Renderer, es: seq<Expr>, full: Activation, soul: Activation, env: Scope)
    requires FillsOpen(r, full) && ShowsOpen(r, full, soul)
    requires CompilesSeq(es) && !NakedRegisterSeq(es, env.Keys) && !RefusesSeq(r, es, env.Keys)
    ensures EvalSeq(SubstSeq(r, es, env.Keys), soul, env, r.ops) == EvalSeq(es, full, env, r.ops)
    decreases es, 0
  {
    if es != [] {
      RenderPreservesMeaning(r, es[0], full, soul, env);
      SeqPreserved(r, es[1..], full, soul, env);
      EvalSeqCons(Subst(r, es[0], env.Keys), SubstSeq(r, es[1..], env.Keys), soul, env, r.ops);
    }
  }

  lemma {:induction false} BodiesPreserved(r: Renderer, bodies: seq<Expr>, x: string, xs: seq<Value>,
                                           full: Activation, soul: Activation, env: Scope)
    requires FillsOpen(r, full) && ShowsOpen(r, full, soul)
    requires CompilesSeq(bodies) && !NakedRegisterSeq(bodies, env.Keys + {x}) && !RefusesSeq(r, bodies, env.Keys + {x})
    ensures EvalBodies(SubstSeq(r, bodies, env.Keys + {x}), x, xs, soul, env, r.ops)
         == EvalBodies(bodies, x, xs, full, env, r.ops)
    decreases bodies, 0
  {
    if bodies != [] {
      var body := Subst(r, bodies[0], env.Keys + {x});
      forall i | 0 <= i < |xs|
        ensures Eval(body, soul, env[x := xs[i]], r.ops) == Eval(bodies[0], full, env[x := xs[i]], r.ops)
      {
        var inner := env[x := xs[i]];
        assert inner.Keys == env.Keys + {x};
        RenderPreservesMeaning(r, bodies[0], full, soul, inner);
      }
      EvalEachSame(body, soul, env, bodies[0], full, env, x, xs, r.ops);
      BodiesPreserved(r, bodies[1..], x, xs, full, soul, env);
      var rest := SubstSeq(r, bodies[1..], env.Keys + {x});
      assert ([body] + rest)[1..] == rest;
    }
  }

  // ---- Nothing of the context is left -----------------------------------------------------

  lemma {:induction false} NoReadsWithoutMentions(r: Renderer, e: Expr, sc: set<string>)
    requires Mentions(e) == {}
    ensures ContextReads(r, e, sc) == []
    decreases e, 0
  {
    match e
    case Lit(_) =>
    case Ident(_) =>
    case Select(o, _) => NoReadsWithoutMentions(r, o, sc);
    case Index(o, k) => NoReadsWithoutMentions(r, o, sc); NoReadsWithoutMentions(r, k, sc);
    case Has(x) => NoReadsWithoutMentions(r, x, sc);
    case Default(x, y) => NoReadsWithoutMentions(r, x, sc); NoReadsWithoutMentions(r, y, sc);
    case Node(_, kids) => NoReadsWithoutMentionsSeq(r, kids, sc);
    case Compr(_, t, x, bodies) => NoReadsWithoutMentions(r, t, sc); NoReadsWithoutMentionsSeq(r, bodies, sc + {x});
    case Where(t, args) => NoReadsWithoutMentions(r, t, sc); NoReadsWithoutMentionsSeq(r, args, sc);
  }

  lemma {:induction false} NoReadsWithoutMentionsSeq(r: Renderer, es: seq<Expr>, sc: set<string>)
    requires MentionsSeq(es) == {}
    ensures ContextReadsSeq(r, es, sc) == []
    decreases es, 0
  {
    if es != [] {
      NoReadsWithoutMentions(r, es[0], sc);
      NoReadsWithoutMentionsSeq(r, es[1..], sc);
    }
  }

  lemma SubstitutedReadsNothing(r: Renderer, o: Outcome, sc: set<string>)
    ensures ContextReads(r, Substituted(o), sc) == [] && ContextReads(r, ErrorTerm(), sc) == []
  {
    assert MentionsSeq([Node(MapOp, [])]) == {};
    NoReadsWithoutMentions(r, ErrorTerm(), sc);
    if o.Val? {
      LiteralMentionsNothing(o.v);
      assert MentionsSeq([Literal(o.v)]) == {};
      NoReadsWithoutMentions(r, Substituted(o), sc);
    }
  }

  /** The rendered tree reads nothing of the host context outside the open set, so `checkResidual`
      never trips on it. */
  lemma {:induction false} NoResidue(r: Renderer, e: Expr, sc: set<string>)
    requires !NakedRegister(e, sc)
    ensures ContextReads(r, Subst(r, e, sc), sc) == []
    decreases e, 0
  {
    if IsClosedRead(r, e, sc) {
      SubstitutedReadsNothing(r, KeeperEval(r, e), sc);
    } else {
      match e
      case Lit(_) =>
      case Ident(_) =>
      case Select(o, f) =>
        if !IsRegisterRoot(o, sc) {
          NoResidue(r, o, sc);
          SubstNeverMakesRegister(r, o, sc);
        }
      case Index(o, k) => NoResidue(r, o, sc); NoResidue(r, k, sc);
      case Has(x) =>
        if IsClosedRead(r, x, sc) { SubstitutedReadsNothing(r, Err, sc); } else { NoResidue(r, x, sc); }
      case Default(x, y) =>
        if !IsClosedRead(r, x, sc) {
          NoResidue(r, x, sc);
          NoResidue(r, y, sc);
        } else {
          SubstitutedReadsNothing(r, KeeperEval(r, x), sc);
          NoResidue(r, y, sc);
          CondReads(r, Presence(r, x), Substituted(KeeperEval(r, x)), Subst(r, y, sc), sc);
        }
      case Node(_, kids) => NoResidueSeq(r, kids, sc);
      case Compr(_, t, x, bodies) => NoResidue(r, t, sc); NoResidueSeq(r, bodies, sc + {x});
      case Where(t, args) => NoResidue(r, t, sc); NoResidueSeq(r, args, sc);
    }
  }

  lemma CondReads(r: Renderer, c: Expr, t: Expr, f: Expr, sc: set<string>)
    ensures ContextReads(r, Cond(c, t, f), sc)
      == ContextReads(r, c, sc) + ContextReads(r, t, sc) + ContextReads(r, f, sc)
  {
    var none: seq<Expr> := [];
    Triple(c, t, f);
    ContextReadsCons(r, c, [t, f], sc);
    Pair(t, f);
    ContextReadsCons(r, t, [f], sc);
    NothingAfter([f]);
    ContextReadsCons(r, f, none, sc);
    NothingAfter(ContextReads(r, f, sc));
    Regroup(ContextReads(r, c, sc), ContextReads(r, t, sc), ContextReads(r, f, sc));
  }

  lemma ContextReadsCons(r: Renderer, e: Expr, es: seq<Expr>, sc: set<string>)
    ensures ContextReadsSeq(r, [e] + es, sc) == ContextReads(r, e, sc) + ContextReadsSeq(r, es, sc)
  {
    TailOf(e, es);
  }

  /** Only the `register` identifier is rewritten to the `register` identifier. */
  lemma SubstNeverMakesRegister(r: Renderer, o: Expr, sc: set<string>)
    requires !IsRegisterRoot(o, sc)
    ensures !IsRegisterRoot(Subst(r, o, sc), sc)
  {
  }

  lemma {:induction false} NoResidueSeq(r: Renderer, es: seq<Expr>, sc: set<string>)
    requires !NakedRegisterSeq(es, sc)
    ensures ContextReadsSeq(r, SubstSeq(r, es, sc), sc) == []
    decreases es, 0
  {
    if es != [] {
      NoResidue(r, es[0], sc);
      NoResidueSeq(r, es[1..], sc);
      assert SubstSeq(r, es, sc)[1..] == SubstSeq(r, es[1..], sc);
    }
  }

  // ---- Whether anything is substituted depends on the text alone --------------------------

  lemma {:induction false} ClosedReadReads(r: Renderer, e: Expr, sc: set<string>)
    requires IsClosedRead(r, e, sc)
    ensures ContextReads(r, e, sc) != []
  {
    match e
    case Ident(_) =>
    case Select(o, _) => if !IsRegisterRoot(o, sc) { ClosedReadReads(r, o, sc); }
    case Index(o, _) => ClosedReadReads(r, o, sc);
  }

  lemma {:induction false} ReadlessUnchanged(r: Renderer, e: Expr, sc: set<string>)
    requires ContextReads(r, e, sc) == []
    ensures Subst(r, e, sc) == e && !Refuses(r, e, sc)
    decreases e, 0
  {
    if IsClosedRead(r, e, sc) { ClosedReadReads(r, e, sc); }
    match e
    case Lit(_) =>
    case Ident(_) =>
    case Select(o, f) =>
      if !IsRegisterRoot(o, sc) { ReadlessUnchanged(r, o, sc); }
    case Index(o, k) => ReadlessUnchanged(r, o, sc); ReadlessUnchanged(r, k, sc);
    case Has(x) =>
      if IsClosedRead(r, x, sc) { ClosedReadReads(r, x, sc); }
      ReadlessUnchanged(r, x, sc);
    case Default(x, y) =>
      if IsClosedRead(r, x, sc) { ClosedReadReads(r, x, sc); }
      ReadlessUnchanged(r, x, sc);
      ReadlessUnchanged(r, y, sc);
    case Node(_, kids) => ReadlessUnchangedSeq(r, kids, sc);
    case Compr(_, t, x, bodies) => ReadlessUnchanged(r, t, sc); ReadlessUnchangedSeq(r, bodies, sc + {x});
    case Where(t, args) => ReadlessUnchanged(r, t, sc); ReadlessUnchangedSeq(r, args, sc);
  }

  lemma {:induction false} ReadlessUnchangedSeq(r: Renderer, es: seq<Expr>, sc: set<string>)
    requires ContextReadsSeq(r, es, sc) == []
    ensures SubstSeq(r, es, sc) == es && !RefusesSeq(r, es, sc)
    decreases es, 0
  {
    if es != [] {
      ReadlessUnchanged(r, es[0], sc);
      ReadlessUnchangedSeq(r, es[1..], sc);
    }
  }

  /** `PredicateResolves`, which has no host to ask, answers for every host: the rewrite changes the
      tree exactly when the tree reads the context outside the open set. */
  lemma ResolvesIsValueFree(r: Renderer, e: Expr)
    requires !NakedRegister(e, {})
    ensures Subst(r, e, {}) != e <==> ContextReads(r, e, {}) != []
  {
    if ContextReads(r, e, {}) == [] {
      ReadlessUnchanged(r, e, {});
    } else {
      NoResidue(r, e, {});
    }
  }

  lemma {:induction false} ContextReadsValueFree(r: Renderer, r': Renderer, e: Expr, sc: set<string>)
    requires r.open == r'.open && r.context == r'.context
    ensures ContextReads(r, e, sc) == ContextReads(r', e, sc)
    decreases e, 0
  {
    match e
    case Lit(_) =>
    case Ident(_) =>
    case Select(o, _) => ContextReadsValueFree(r, r', o, sc);
    case Index(o, k) => ContextReadsValueFree(r, r', o, sc); ContextReadsValueFree(r, r', k, sc);
    case Has(x) => ContextReadsValueFree(r, r', x, sc);
    case Default(x, y) => ContextReadsValueFree(r, r', x, sc); ContextReadsValueFree(r, r', y, sc);
    case Node(_, kids) => ContextReadsSeqValueFree(r, r', kids, sc);
    case Compr(_, t, x, bodies) =>
      ContextReadsValueFree(r, r', t, sc);
      ContextReadsSeqValueFree(r, r', bodies, sc + {x});
    case Where(t, args) => ContextReadsValueFree(r, r', t, sc); ContextReadsSeqValueFree(r, r', args, sc);
  }

  lemma {:induction false} ContextReadsSeqValueFree(r: Renderer, r': Renderer, es: seq<Expr>, sc: set<string>)
    requires r.open == r'.open && r.context == r'.context
    ensures ContextReadsSeq(r, es, sc) == ContextReadsSeq(r', es, sc)
    decreases es, 0
  {
    if es != [] {
      ContextReadsValueFree(r, r', es[0], sc);
      ContextReadsSeqValueFree(r, r', es[1..], sc);
    }
  }

  // ---- A rendering is refused only over a value text cannot carry -------------------------

  /** A node of a tree, with the variables bound around it. */
  datatype Site = Site(node: Expr, scope: set<string>)

  /** Every node of e, e itself included. */
  ghost function Nodes(e: Expr, sc: set<string>): set<Site>
    decreases e, 0
  {
    {Site(e, sc)} +
    match e
    case Lit(_) => {}
    case Ident(_) => {}
    case Select(o, _) => Nodes(o, sc)
    case Index(o, k) => Nodes(o, sc) + Nodes(k, sc)
    case Has(x) => Nodes(x, sc)
    case Default(x, y) => Nodes(x, sc) + Nodes(y, sc)
    case Node(_, kids) => NodesSeq(kids, sc)
    case Compr(_, t, x, bodies) => Nodes(t, sc) + NodesSeq(bodies, sc + {x})
    case Where(t, args) => Nodes(t, sc) + NodesSeq(args, sc)
  }

  ghost function NodesSeq(es: seq<Expr>, sc: set<string>): set<Site>
    decreases es, 0
  {
    if es == [] then {} else Nodes(es[0], sc) + NodesSeq(es[1..], sc)
  }

  /** A form the compiler takes: has() of a field, default() of a field or a name, and no where-call. */
  predicate TakesForm(e: Expr) {
    match e
    case Has(x) => x.Select?
    case Default(x, _) => x.Select? || x.Ident?
    case Where(_, _) => false
    case _ => true
  }

  lemma {:induction false} CompilesExactly(e: Expr, sc: set<string>)
    ensures Compiles(e) <==> forall x :: x in Nodes(e, sc) ==> TakesForm(x.node)
    decreases e, 0
  {
    assert Site(e, sc) in Nodes(e, sc);
    match e
    case Lit(_) =>
    case Ident(_) =>
    case Select(o, _) => CompilesExactly(o, sc);
    case Index(o, k) => CompilesExactly(o, sc); CompilesExactly(k, sc);
    case Has(x) => CompilesExactly(x, sc);
    case Default(x, y) => CompilesExactly(x, sc); CompilesExactly(y, sc);
    case Node(_, kids) => CompilesExactlySeq(kids, sc);
    case Compr(_, t, x, bodies) => CompilesExactly(t, sc); CompilesExactlySeq(bodies, sc + {x});
    case Where(_, _) =>
  }

  lemma {:induction false} CompilesExactlySeq(es: seq<Expr>, sc: set<string>)
    ensures CompilesSeq(es) <==> forall x :: x in NodesSeq(es, sc) ==> TakesForm(x.node)
    decreases es, 0
  {
    if es != [] {
      CompilesExactly(es[0], sc);
      CompilesExactlySeq(es[1..], sc);
    }
  }

  /** The closed reads of e whose values are printed: not one inside another, not what has() asks about,
      and not what default() of a bare name never falls back to. */
  ghost function PrintedReads(r: Renderer, e: Expr, sc: set<string>): set<Site>
    decreases e, 0
  {
    if IsClosedRead(r, e, sc) then {Site(e, sc)}
    else
      match e
      case Lit(_) => {}
      case Ident(_) => {}
      case Select(o, _) => PrintedReads(r, o, sc)
      case Index(o, k) => PrintedReads(r, o, sc) + PrintedReads(r, k, sc)
      case Has(x) => if IsClosedRead(r, x, sc) then {} else PrintedReads(r, x, sc)
      case Default(x, y) =>
        PrintedReads(r, x, sc) + if IsClosedRead(r, x, sc) && x.Ident? then {} else PrintedReads(r, y, sc)
      case Node(_, kids) => PrintedReadsSeq(r, kids, sc)
      case Compr(_, t, x, bodies) => PrintedReads(r, t, sc) + PrintedReadsSeq(r, bodies, sc + {x})
      case Where(t, args) => PrintedReads(r, t, sc) + PrintedReadsSeq(r, args, sc)
  }

  ghost function PrintedReadsSeq(r: Renderer, es: seq<Expr>, sc: set<string>): set<Site>
    decreases es, 0
  {
    if es == [] then {} else PrintedReads(r, es[0], sc) + PrintedReadsSeq(r, es[1..], sc)
  }

  lemma {:induction false} PrintedReadsOccur(r: Renderer, e: Expr, sc: set<string>)
    ensures PrintedReads(r, e, sc) <= Nodes(e, sc)
    ensures forall x :: x in PrintedReads(r, e, sc) ==> IsClosedRead(r, x.node, x.scope)
    decreases e, 0
  {
    match e
    case Lit(_) =>
    case Ident(_) =>
    case Select(o, _) => PrintedReadsOccur(r, o, sc);
    case Index(o, k) => PrintedReadsOccur(r, o, sc); PrintedReadsOccur(r, k, sc);
    case Has(x) => PrintedReadsOccur(r, x, sc);
    case Default(x, y) => PrintedReadsOccur(r, x, sc); PrintedReadsOccur(r, y, sc);
    case Node(_, kids) => PrintedReadsOccurSeq(r, kids, sc);
    case Compr(_, t, x, bodies) => PrintedReadsOccur(r, t, sc); PrintedReadsOccurSeq(r, bodies, sc + {x});
    case Where(t, args) => PrintedReadsOccur(r, t, sc); PrintedReadsOccurSeq(r, args, sc);
  }

  lemma {:induction false} PrintedReadsOccurSeq(r: Renderer, es: seq<Expr>, sc: set<string>)
    ensures PrintedReadsSeq(r, es, sc) <= NodesSeq(es, sc)
    ensures forall x :: x in PrintedReadsSeq(r, es, sc) ==> IsClosedRead(r, x.node, x.scope)
    decreases es, 0
  {
    if es != [] {
      PrintedReadsOccur(r, es[0], sc);
      PrintedReadsOccurSeq(r, es[1..], sc);
    }
  }

  /** A value with something in it, at some depth, that no literal denotes. */
  ghost predicate Undenoted(o: Outcome) {
    o.Val? && HoldsOther(o.v)
  }

  lemma NoLiteralExactly(o: Outcome)
    ensures NoLiteral(o) <==> Undenoted(o)
  {
    if o.Val? { CarriesExactly(o.v); }
  }

  /** The value of one of these reads cannot be written. */
  ghost predicate Unwritable(r: Renderer, sites: set<Site>) {
    exists x :: x in sites && Undenoted(Eval(x.node, r.host, map[], r.ops))
  }

  lemma UnwritableUnion(r: Renderer, a: set<Site>, b: set<Site>)
    ensures Unwritable(r, a + b) <==> Unwritable(r, a) || Unwritable(r, b)
  {
    if Unwritable(r, a) {
      var x :| x in a && Undenoted(Eval(x.node, r.host, map[], r.ops));
      assert x in a + b;
    }
    if Unwritable(r, b) {
      var x :| x in b && Undenoted(Eval(x.node, r.host, map[], r.ops));
      assert x in a + b;
    }
  }

  /** A rendering is refused exactly when a closed read of the expression whose value would be printed
      has a value text cannot carry on this host. */
  lemma {:induction false} RefusedExactlyOverValues(r: Renderer, e: Expr, sc: set<string>)
    ensures Refuses(r, e, sc) <==> Unwritable(r, PrintedReads(r, e, sc))
    decreases e, 0
  {
    if IsClosedRead(r, e, sc) {
      InComprehensionSame(e, r.host, map[], r.ops);
      NoLiteralExactly(KeeperEval(r, e));
      assert Site(e, sc) in PrintedReads(r, e, sc);
    } else {
      match e
      case Lit(_) =>
      case Ident(_) =>
      case Select(o, _) => RefusedExactlyOverValues(r, o, sc);
      case Index(o, k) =>
        RefusedExactlyOverValues(r, o, sc); RefusedExactlyOverValues(r, k, sc);
        UnwritableUnion(r, PrintedReads(r, o, sc), PrintedReads(r, k, sc));
      case Has(x) => RefusedExactlyOverValues(r, x, sc);
      case Default(x, y) =>
        RefusedExactlyOverValues(r, x, sc); RefusedExactlyOverValues(r, y, sc);
        UnwritableUnion(r, PrintedReads(r, x, sc), {});
        UnwritableUnion(r, PrintedReads(r, x, sc), PrintedReads(r, y, sc));
      case Node(_, kids) => RefusedExactlyOverValuesSeq(r, kids, sc);
      case Compr(_, t, x, bodies) =>
        RefusedExactlyOverValues(r, t, sc); RefusedExactlyOverValuesSeq(r, bodies, sc + {x});
        UnwritableUnion(r, PrintedReads(r, t, sc), PrintedReadsSeq(r, bodies, sc + {x}));
      case Where(t, args) =>
        RefusedExactlyOverValues(r, t, sc); RefusedExactlyOverValuesSeq(r, args, sc);
        UnwritableUnion(r, PrintedReads(r, t, sc), PrintedReadsSeq(r, args, sc));
    }
  }

  lemma {:induction false} RefusedExactlyOverValuesSeq(r: Renderer, es: seq<Expr>, sc: set<string>)
    ensures RefusesSeq(r, es, sc) <==> Unwritable(r, PrintedReadsSeq(r, es, sc))
    decreases es, 0
  {
    if es != [] {
      RefusedExactlyOverValues(r, es[0], sc);
      RefusedExactlyOverValuesSeq(r, es[1..], sc);
      UnwritableUnion(r, PrintedReads(r, es[0], sc), PrintedReadsSeq(r, es[1..], sc));
    }
  }

  // ---- The reads of a printed tree --------------------------------------------------------

  lemma {:induction false} GroupingReads(r: Renderer, e: Expr, sc: set<string>)
    ensures ContextReads(r, GroupForParser(e), sc) == ContextReads(r, e, sc)
    decreases e, 0
  {
    match e
    case Lit(_) =>
    case Ident(_) =>
    case Select(o, _) => GroupingReads(r, o, sc); GroupedReads(r, GroupForParser(o), sc);
    case Index(o, k) => GroupingReads(r, o, sc); GroupedReads(r, GroupForParser(o), sc); GroupingReads(r, k, sc);
    case Has(x) => GroupingReads(r, x, sc);
    case Default(x, y) => GroupingReads(r, x, sc); GroupingReads(r, y, sc);
    case Node(op, kids) =>
      GroupingReadsSeq(r, kids, sc);
      if BindsFirst(op, |kids|) {
        var out := GroupSeq(kids);
        GroupedReads(r, out[0], sc);
        assert ([Grouped(out[0])] + out[1..])[1..] == out[1..];
      }
    case Compr(_, t, x, bodies) =>
      GroupingReads(r, t, sc); GroupedReads(r, GroupForParser(t), sc); GroupingReadsSeq(r, bodies, sc + {x});
    case Where(t, args) =>
      GroupingReads(r, t, sc); GroupedReads(r, GroupForParser(t), sc); GroupingReadsSeq(r, args, sc);
  }

  lemma GroupedReads(r: Renderer, x: Expr, sc: set<string>)
    ensures ContextReads(r, Grouped(x), sc) == ContextReads(r, x, sc)
  {
    assert ContextReadsSeq(r, [x], sc) == ContextReads(r, x, sc);
  }

  lemma {:induction false} GroupingReadsSeq(r: Renderer, es: seq<Expr>, sc: set<string>)
    ensures ContextReadsSeq(r, GroupSeq(es), sc) == ContextReadsSeq(r, es, sc)
    decreases es, 0
  {
    if es != [] {
      GroupingReads(r, es[0], sc);
      GroupingReadsSeq(r, es[1..], sc);
      assert GroupSeq(es)[1..] == GroupSeq(es[1..]);
    }
  }

  lemma {:induction false} UnmentionedScope(r: Renderer, e: Expr, sc: set<string>, x: string)
    requires x !in Mentions(e)
    ensures ContextReads(r, e, sc + {x}) == ContextReads(r, e, sc)
    decreases e, 0
  {
    match e
    case Lit(_) =>
    case Ident(_) =>
    case Select(o, _) => UnmentionedScope(r, o, sc, x);
    case Index(o, k) => UnmentionedScope(r, o, sc, x); UnmentionedScope(r, k, sc, x);
    case Has(a) => UnmentionedScope(r, a, sc, x);
    case Default(a, y) => UnmentionedScope(r, a, sc, x); UnmentionedScope(r, y, sc, x);
    case Node(_, kids) => UnmentionedScopeSeq(r, kids, sc, x);
    case Compr(_, t, v, bodies) =>
      UnmentionedScope(r, t, sc, x);
      UnmentionedScopeSeq(r, bodies, sc + {v}, x);
      assert sc + {v} + {x} == sc + {x} + {v};
    case Where(t, args) => UnmentionedScope(r, t, sc, x); UnmentionedScopeSeq(r, args, sc, x);
  }

  lemma {:induction false} UnmentionedScopeSeq(r: Renderer, es: seq<Expr>, sc: set<string>, x: string)
    requires x !in MentionsSeq(es)
    ensures ContextReadsSeq(r, es, sc + {x}) == ContextReadsSeq(r, es, sc)
    decreases es, 0
  {
    if es != [] {
      UnmentionedScope(r, es[0], sc, x);
      UnmentionedScopeSeq(r, es[1..], sc, x);
    }
  }

  lemma InComprehensionReads(r: Renderer, e: Expr)
    ensures ContextReads(r, InComprehension(e), {}) == ContextReads(r, e, {})
  {
    var x := FreshIdent(e);
    UnmentionedScope(r, e, {}, x);
    ContextReadsOne(r, e, {} + {x});
    var zero := Lit(VInt(0));
    ContextReadsOne(r, zero, {});
    var range := Node(ListOp, [zero]);
    assert ContextReads(r, zero, {}) == [] && ContextReads(r, range, {}) == [];
    var mapped := Compr(Transform, range, x, [e]);
    NothingBefore(ContextReads(r, e, {} + {x}));
    assert ContextReads(r, mapped, {}) == ContextReads(r, e, {});
    NothingAfter(ContextReads(r, e, {}));
  }

  lemma ContextReadsOne(r: Renderer, e: Expr, sc: set<string>)
    ensures ContextReadsSeq(r, [e], sc) == ContextReads(r, e, sc)
  {
    var none: seq<Expr> := [];
    NothingAfter([e]);
    ContextReadsCons(r, e, none, sc);
    NothingAfter(ContextReads(r, e, sc));
  }

  // ---- RenderPredicate --------------------------------------------------------------------

  datatype Rendering =
    | Rendered(tree: Expr, resolved: bool)
    | DoesNotCompile
    | NotRenderable
    | ResidualReference

  ghost function CheckResidual(r: Renderer, text: Expr, resolved: bool): Rendering {
    if ContextReads(r, text, {}) != [] then ResidualReference else Rendered(text, resolved)
  }

  /** The text as it is, or inside a comprehension where only that type-checks. */
  ghost function Send(r: Renderer, text: Expr, wrapped: Expr, resolved: bool, soulAccepts: Expr -> bool): Rendering {
    if soulAccepts(text) then CheckResidual(r, text, resolved)
    else if resolved && soulAccepts(wrapped) then CheckResidual(r, wrapped, resolved)
    else NotRenderable
  }

  /** The whole pipeline. soulAccepts stands for what the Soul does before it evaluates a text: the
      guards, the parser's limits and the type check. */
  ghost function RenderPredicate(r: Renderer, e: Expr, soulAccepts: Expr -> bool): Rendering {
    if !Compiles(e) then DoesNotCompile
    else if NakedRegister(e, {}) then NotRenderable
    else
      var resolved := ContextReads(r, e, {}) != [];
      if resolved && Refuses(r, e, {}) then NotRenderable
      else
        var out := Subst(r, e, {});
        var text := if resolved then GroupForParser(out) else e;
        Send(r, text, GroupForParser(InComprehension(out)), resolved, soulAccepts)
  }

  /** What is sent is equivalent to what was written: for every value of the open registers, the text
      the Soul receives evaluates there to what the author's predicate evaluates to against that
      host's full context. The residual check never fires, and `resolved` says exactly that the
      predicate reads the context outside the open set. */
  lemma RenderedPredicateIsEquivalent(r: Renderer, e: Expr, soulAccepts: Expr -> bool, full: Activation,
                                      soul: Activation)
    requires FillsOpen(r, full) && ShowsOpen(r, full, soul)
    ensures var out := RenderPredicate(r, e, soulAccepts);
            && !out.ResidualReference?
            && (out.Rendered? ==>
                && Eval(out.tree, soul, map[], r.ops) == Eval(e, full, map[], r.ops)
                && soulAccepts(out.tree)
                && (out.resolved <==> ContextReads(r, e, {}) != [])
                && (!out.resolved ==> out.tree == e))
  {
    if Compiles(e) && !NakedRegister(e, {}) {
      var sub, want := Subst(r, e, {}), Eval(e, full, map[], r.ops);
      if ContextReads(r, e, {}) == [] {
        UnresolvedSame(r, e, full, soul);
        SentAlike(r, e, GroupForParser(InComprehension(sub)), false, soulAccepts, want, soul);
      } else if !Refuses(r, e, {}) {
        ResolvedSame(r, e, full, soul);
        SentAlike(r, GroupForParser(sub), GroupForParser(InComprehension(sub)), true, soulAccepts, want, soul);
      }
    }
  }

  /** Every node but an identifier that a field is named off. */
  ghost function NakedNodes(e: Expr, sc: set<string>): set<Site>
    decreases e, 0
  {
    {Site(e, sc)} +
    match e
    case Lit(_) => {}
    case Ident(_) => {}
    case Select(o, _) => if o.Ident? then {} else NakedNodes(o, sc)
    case Index(o, k) => NakedNodes(o, sc) + NakedNodes(k, sc)
    case Has(x) => NakedNodes(x, sc)
    case Default(x, y) => NakedNodes(x, sc) + NakedNodes(y, sc)
    case Node(_, kids) => NakedNodesSeq(kids, sc)
    case Compr(_, t, x, bodies) => NakedNodes(t, sc) + NakedNodesSeq(bodies, sc + {x})
    case Where(t, args) => NakedNodes(t, sc) + NakedNodesSeq(args, sc)
  }

  ghost function NakedNodesSeq(es: seq<Expr>, sc: set<string>): set<Site>
    decreases es, 0
  {
    if es == [] then {} else NakedNodes(es[0], sc) + NakedNodesSeq(es[1..], sc)
  }

  ghost predicate AnySite(sites: set<Site>, p: Site -> bool) {
    exists x :: x in sites && p(x)
  }

  lemma SitesUnion(a: set<Site>, b: set<Site>, p: Site -> bool)
    ensures AnySite(a + b, p) <==> AnySite(a, p) || AnySite(b, p)
  {
    if AnySite(a, p) { var x :| x in a && p(x); assert x in a + b; }
    if AnySite(b, p) { var x :| x in b && p(x); assert x in a + b; }
  }

  lemma SitesOfNode(e: Expr, sc: set<string>, p: Site -> bool)
    ensures AnySite(NakedNodes(e, sc), p) <==>
      p(Site(e, sc)) ||
      match e
      case Lit(_) => false
      case Ident(_) => false
      case Select(o, _) => !o.Ident? && AnySite(NakedNodes(o, sc), p)
      case Index(o, k) => AnySite(NakedNodes(o, sc), p) || AnySite(NakedNodes(k, sc), p)
      case Has(x) => AnySite(NakedNodes(x, sc), p)
      case Default(x, y) => AnySite(NakedNodes(x, sc), p) || AnySite(NakedNodes(y, sc), p)
      case Node(_, kids) => AnySite(NakedNodesSeq(kids, sc), p)
      case Compr(_, t, x, bodies) => AnySite(NakedNodes(t, sc), p) || AnySite(NakedNodesSeq(bodies, sc + {x}), p)
      case Where(t, args) => AnySite(NakedNodes(t, sc), p) || AnySite(NakedNodesSeq(args, sc), p)
  {
    var here := {Site(e, sc)};
    assert AnySite(here, p) <==> p(Site(e, sc)) by { assert Site(e, sc) in here; }
    match e
    case Lit(_) =>
    case Ident(_) =>
    case Select(o, _) => if !o.Ident? { SitesUnion(here, NakedNodes(o, sc), p); }
    case Index(o, k) =>
      SitesUnion(NakedNodes(o, sc), NakedNodes(k, sc), p);
      SitesUnion(here, NakedNodes(o, sc) + NakedNodes(k, sc), p);
    case Has(x) => SitesUnion(here, NakedNodes(x, sc), p);
    case Default(x, y) =>
      SitesUnion(NakedNodes(x, sc), NakedNodes(y, sc), p);
      SitesUnion(here, NakedNodes(x, sc) + NakedNodes(y, sc), p);
    case Node(_, kids) => SitesUnion(here, NakedNodesSeq(kids, sc), p);
    case Compr(_, t, x, bodies) =>
      SitesUnion(NakedNodes(t, sc), NakedNodesSeq(bodies, sc + {x}), p);
      SitesUnion(here, NakedNodes(t, sc) + NakedNodesSeq(bodies, sc + {x}), p);
    case Where(t, args) =>
      SitesUnion(NakedNodes(t, sc), NakedNodesSeq(args, sc), p);
      SitesUnion(here, NakedNodes(t, sc) + NakedNodesSeq(args, sc), p);
  }

  lemma SitesOfSeq(es: seq<Expr>, sc: set<string>, p: Site -> bool)
    ensures AnySite(NakedNodesSeq(es, sc), p) <==>
      es != [] && (AnySite(NakedNodes(es[0], sc), p) || AnySite(NakedNodesSeq(es[1..], sc), p))
  {
    if es != [] { SitesUnion(NakedNodes(es[0], sc), NakedNodesSeq(es[1..], sc), p); }
  }

  /** `register` stands somewhere without a field after it, and no variable of that name hides it. */
  ghost predicate BareRegister(sites: set<Site>) {
    AnySite(sites, IsBare())
  }

  function IsBare(): Site -> bool {
    (x: Site) => IsIdent(x.node, "register") && "register" !in x.scope
  }

  /** A bare `register` is found if and only if it stands at some site. */
  lemma {:induction false} NakedExactly(e: Expr, sc: set<string>)
    ensures NakedRegister(e, sc) <==> BareRegister(NakedNodes(e, sc))
    decreases e, 0
  {
    SitesOfNode(e, sc, IsBare());
    match e
    case Lit(_) =>
    case Ident(_) =>
    case Select(o, _) => if !o.Ident? { NakedExactly(o, sc); }
    case Index(o, k) => NakedExactly(o, sc); NakedExactly(k, sc);
    case Has(x) => NakedExactly(x, sc);
    case Default(x, y) => NakedExactly(x, sc); NakedExactly(y, sc);
    case Node(_, kids) => NakedExactlySeq(kids, sc);
    case Compr(_, t, x, bodies) => NakedExactly(t, sc); NakedExactlySeq(bodies, sc + {x});
    case Where(t, args) => NakedExactly(t, sc); NakedExactlySeq(args, sc);
  }

  lemma {:induction false} NakedExactlySeq(es: seq<Expr>, sc: set<string>)
    ensures NakedRegisterSeq(es, sc) <==> BareRegister(NakedNodesSeq(es, sc))
    decreases es, 0
  {
    SitesOfSeq(es, sc, IsBare());
    if es != [] {
      NakedExactly(es[0], sc);
      NakedExactlySeq(es[1..], sc);
    }
  }

  /** A site that reads the open set, or a variable of sc that the expression does not bind again. */
  function Opens(r: Renderer, sc: set<string>): Site -> bool {
    (x: Site) =>
      match x.node
      case Ident(n) => n !in x.scope && (n in sc || n == "register")
      case Select(o, f) => o.Ident? && o.name !in x.scope && (o.name in sc || (o.name == "register" && f in r.open))
      case _ => false
  }

  /** Something open is read if and only if some site in the expression reads it. */
  lemma {:induction false} OpenExactly(r: Renderer, e: Expr, sc: set<string>, local: set<string>)
    ensures ReadsOpen(r, e, sc, local) <==> AnySite(NakedNodes(e, local), Opens(r, sc))
    decreases e, 0
  {
    SitesOfNode(e, local, Opens(r, sc));
    match e
    case Lit(_) =>
    case Ident(_) =>
    case Select(o, _) => if !o.Ident? { OpenExactly(r, o, sc, local); }
    case Index(o, k) => OpenExactly(r, o, sc, local); OpenExactly(r, k, sc, local);
    case Has(x) => OpenExactly(r, x, sc, local);
    case Default(x, y) => OpenExactly(r, x, sc, local); OpenExactly(r, y, sc, local);
    case Node(_, kids) => OpenExactlySeq(r, kids, sc, local);
    case Compr(_, t, x, bodies) => OpenExactly(r, t, sc, local); OpenExactlySeq(r, bodies, sc, local + {x});
    case Where(t, args) => OpenExactly(r, t, sc, local); OpenExactlySeq(r, args, sc, local);
  }

  lemma {:induction false} OpenExactlySeq(r: Renderer, es: seq<Expr>, sc: set<string>, local: set<string>)
    ensures ReadsOpenSeq(r, es, sc, local) <==> AnySite(NakedNodesSeq(es, local), Opens(r, sc))
    decreases es, 0
  {
    SitesOfSeq(es, local, Opens(r, sc));
    if es != [] {
      OpenExactly(r, es[0], sc, local);
      OpenExactlySeq(r, es[1..], sc, local);
    }
  }

  /** What fields are named off and elements taken from, down to a name or a field of `register`. */
  function Base(e: Expr): Expr {
    match e
    case Select(o, _) => if o == Ident("register") then e else Base(o)
    case Index(o, _) => Base(o)
    case _ => e
  }

  /** The keys on the way there. */
  function KeysOf(e: Expr): seq<Expr> {
    match e
    case Select(o, _) => if o == Ident("register") then [] else KeysOf(o)
    case Index(o, k) => KeysOf(o) + [k]
    case _ => []
  }

  ghost predicate AnyOpen(r: Renderer, ks: seq<Expr>, sc: set<string>) {
    exists k :: k in ks && AnySite(NakedNodes(k, {}), Opens(r, sc))
  }

  /** A read is resolved whole if and only if it goes down to a root of the context or to a register that is not
      open, no variable hiding it, and no key on the way reads anything open. */
  lemma {:induction false} ClosedExactly(r: Renderer, e: Expr, sc: set<string>)
    ensures IsClosedRead(r, e, sc) <==>
      && !AnyOpen(r, KeysOf(e), sc)
      && match Base(e)
         case Ident(n) => n != "register" && n !in sc && n in r.context
         case Select(o, f) => o == Ident("register") && "register" !in sc && f !in r.open
         case _ => false
    decreases e
  {
    match e
    case Select(o, _) => ClosedExactly(r, o, sc);
    case Index(o, k) =>
      ClosedExactly(r, o, sc);
      OpenExactly(r, k, sc, {});
      assert AnyOpen(r, KeysOf(o) + [k], sc) <==> AnyOpen(r, KeysOf(o), sc) || ReadsOpen(r, k, sc, {}) by {
        if AnyOpen(r, KeysOf(o), sc) {
          var x :| x in KeysOf(o) && AnySite(NakedNodes(x, {}), Opens(r, sc));
          assert x in KeysOf(o) + [k];
        }
        assert k in KeysOf(o) + [k];
      }
    case _ =>
  }

  /** A site that reads the context under that name: a field of `register` that is not open, or a root. */
  function ReadsAs(r: Renderer, name: string): Site -> bool {
    (x: Site) =>
      match x.node
      case Ident(n) => n !in x.scope && n in r.context && name == n
      case Select(o, f) =>
        o.Ident? && o.name !in x.scope &&
        if o.name == "register" then f !in r.open && name == "register" + "." + f
        else o.name in r.context && name == o.name
      case _ => false
  }

  /** A name is listed as read if and only if some site reads the context under it. */
  lemma {:induction false} ReadsExactly(r: Renderer, e: Expr, sc: set<string>, name: string)
    ensures name in ContextReads(r, e, sc) <==> AnySite(NakedNodes(e, sc), ReadsAs(r, name))
    decreases e, 0
  {
    SitesOfNode(e, sc, ReadsAs(r, name));
    match e
    case Lit(_) =>
    case Ident(_) =>
    case Select(o, _) => if !o.Ident? { ReadsExactly(r, o, sc, name); }
    case Index(o, k) => ReadsExactly(r, o, sc, name); ReadsExactly(r, k, sc, name);
    case Has(x) => ReadsExactly(r, x, sc, name);
    case Default(x, y) => ReadsExactly(r, x, sc, name); ReadsExactly(r, y, sc, name);
    case Node(_, kids) => ReadsExactlySeq(r, kids, sc, name);
    case Compr(_, t, x, bodies) => ReadsExactly(r, t, sc, name); ReadsExactlySeq(r, bodies, sc + {x}, name);
    case Where(t, args) => ReadsExactly(r, t, sc, name); ReadsExactlySeq(r, args, sc, name);
  }

  lemma {:induction false} ReadsExactlySeq(r: Renderer, es: seq<Expr>, sc: set<string>, name: string)
    ensures name in ContextReadsSeq(r, es, sc) <==> AnySite(NakedNodesSeq(es, sc), ReadsAs(r, name))
    decreases es, 0
  {
    SitesOfSeq(es, sc, ReadsAs(r, name));
    if es != [] {
      ReadsExactly(r, es[0], sc, name);
      ReadsExactlySeq(r, es[1..], sc, name);
    }
  }

  /** The predicate can be rendered at all: `register` stands nowhere bare, and every value to be printed has
      a literal on this host. */
  ghost predicate Renderable(r: Renderer, e: Expr) {
    !BareRegister(NakedNodes(e, {})) && !Unwritable(r, PrintedReads(r, e, {}))
  }

  /** What is rendered, exactly. Of a predicate that reads nothing of the closed context the author's text is
      sent. Of any other it is the substituted tree, or that tree inside a comprehension where the Soul
      takes only this. What does not compile is told apart, and everything else is not renderable. */
  lemma RenderedExactly(r: Renderer, e: Expr, soulAccepts: Expr -> bool)
    ensures var out, sub := RenderPredicate(r, e, soulAccepts), Subst(r, e, {});
      var text, wrapped := GroupForParser(sub), GroupForParser(InComprehension(sub));
      out ==
        if !Compiles(e) then DoesNotCompile
        else if !Renderable(r, e) then NotRenderable
        else if ContextReads(r, e, {}) == [] then if soulAccepts(e) then Rendered(e, false) else NotRenderable
        else if soulAccepts(text) then Rendered(text, true)
        else if soulAccepts(wrapped) then Rendered(wrapped, true)
        else NotRenderable
  {
    NakedExactly(e, {});
    RefusedExactlyOverValues(r, e, {});
    if Compiles(e) && Renderable(r, e) {
      if ContextReads(r, e, {}) == [] { ReadlessUnchanged(r, e, {}); } else { SubstitutedIsClosed(r, e); }
    } else if ContextReads(r, e, {}) == [] {
      ReadlessUnchanged(r, e, {});
    }
  }

  lemma SubstitutedIsClosed(r: Renderer, e: Expr)
    requires !NakedRegister(e, {})
    ensures ContextReads(r, GroupForParser(Subst(r, e, {})), {}) == []
    ensures ContextReads(r, GroupForParser(InComprehension(Subst(r, e, {}))), {}) == []
  {
    var out := Subst(r, e, {});
    NoResidue(r, e, {});
    GroupingReads(r, out, {});
    InComprehensionReads(r, out);
    GroupingReads(r, InComprehension(out), {});
  }

  /** Of two texts that read nothing more of the context and mean what is wanted, either may go. */
  lemma SentAlike(r: Renderer, text: Expr, wrapped: Expr, resolved: bool, soulAccepts: Expr -> bool, want: Outcome,
                  soul: Activation)
    requires ContextReads(r, text, {}) == [] && Eval(text, soul, map[], r.ops) == want
    requires resolved ==> ContextReads(r, wrapped, {}) == [] && Eval(wrapped, soul, map[], r.ops) == want
    ensures var out := Send(r, text, wrapped, resolved, soulAccepts);
            && !out.ResidualReference?
            && (out.Rendered? ==>
                && Eval(out.tree, soul, map[], r.ops) == want && soulAccepts(out.tree)
                && out.resolved == resolved && (!resolved ==> out.tree == text))
  {
  }

  lemma UnresolvedSame(r: Renderer, e: Expr, full: Activation, soul: Activation)
    requires FillsOpen(r, full) && ShowsOpen(r, full, soul)
    requires Compiles(e) && !NakedRegister(e, {}) && ContextReads(r, e, {}) == []
    ensures Eval(e, soul, map[], r.ops) == Eval(e, full, map[], r.ops)
  {
    ReadlessUnchanged(r, e, {});
    SubstIsSendable(r, e, full, soul);
  }

  lemma ResolvedSame(r: Renderer, e: Expr, full: Activation, soul: Activation)
    requires FillsOpen(r, full) && ShowsOpen(r, full, soul)
    requires Compiles(e) && !NakedRegister(e, {}) && !Refuses(r, e, {})
    ensures var out := Subst(r, e, {});
            && Eval(GroupForParser(out), soul, map[], r.ops) == Eval(e, full, map[], r.ops)
            && Eval(GroupForParser(InComprehension(out)), soul, map[], r.ops) == Eval(e, full, map[], r.ops)
            && ContextReads(r, GroupForParser(out), {}) == []
            && ContextReads(r, GroupForParser(InComprehension(out)), {}) == []
  {
    var out := Subst(r, e, {});
    SubstIsSendable(r, e, full, soul);
    PrintedSame(r, out, soul);
    WrappedSame(r, out, soul);
  }

  lemma SubstIsSendable(r: Renderer, e: Expr, full: Activation, soul: Activation)
    requires FillsOpen(r, full) && ShowsOpen(r, full, soul)
    requires Compiles(e) && !NakedRegister(e, {}) && !Refuses(r, e, {})
    ensures Eval(Subst(r, e, {}), soul, map[], r.ops) == Eval(e, full, map[], r.ops)
    ensures ContextReads(r, Subst(r, e, {}), {}) == []
  {
    var none: Scope := map[];
    assert none.Keys == {};
    RenderPreservesMeaning(r, e, full, soul, none);
    NoResidue(r, e, {});
  }

  lemma PrintedSame(r: Renderer, out: Expr, soul: Activation)
    ensures Eval(GroupForParser(out), soul, map[], r.ops) == Eval(out, soul, map[], r.ops)
    ensures ContextReads(r, GroupForParser(out), {}) == ContextReads(r, out, {})
  {
    GroupingSame(out, soul, map[], r.ops);
    GroupingReads(r, out, {});
  }

  lemma WrappedSame(r: Renderer, out: Expr, soul: Activation)
    ensures Eval(GroupForParser(InComprehension(out)), soul, map[], r.ops) == Eval(out, soul, map[], r.ops)
    ensures ContextReads(r, GroupForParser(InComprehension(out)), {}) == ContextReads(r, out, {})
  {
    PrintedSame(r, InComprehension(out), soul);
    InComprehensionSame(out, soul, map[], r.ops);
    InComprehensionReads(r, out);
  }
}
