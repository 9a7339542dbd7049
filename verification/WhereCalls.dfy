/** Which texts the `.where` rewrite takes and which it refuses, and what a predicate says of a host. */
module WhereCalls {
  import opened Cel
  import opened Wrappers
  import opened HostsWhere
  import opened Names
  import opened Nodes
  import opened Seqs

  // ---- What the walks find ----------------------------------------------------------------------

  function IsCall(): Expr -> bool {
    (x: Expr) => x.Where?
  }

  /** `soulprint.hosts`, or a where-call on `soulprint`, which is short for it. */
  function NamesHosts(): Expr -> bool {
    (x: Expr) => x == Select(Ident("soulprint"), "hosts") || (x.Where? && x.target == Ident("soulprint"))
  }

  lemma {:induction false} CallsExactly(e: Expr)
    ensures ContainsWhere(e) <==> Occurs(Children, e, IsCall())
    decreases e, 0
  {
    var has := IsCall();
    OccursHere(Children, e, has);
    ChildrenOccur(Children, e, has);
    match e
    case Lit(_) =>
    case Ident(_) =>
    case Select(o, _) => CallsExactly(o);
    case Index(o, k) => CallsExactly(o); CallsExactly(k);
    case Has(x) => CallsExactly(x);
    case Default(x, y) => CallsExactly(x); CallsExactly(y);
    case Node(_, kids) => CallsExactlySeq(kids);
    case Compr(_, t, _, bodies) => CallsExactly(t); CallsExactlySeq(bodies);
    case Where(t, args) => CallsExactly(t); CallsExactlySeq(args);
  }

  lemma {:induction false} CallsExactlySeq(es: seq<Expr>)
    ensures ContainsWhereSeq(es) <==> OccursIn(Children, es, IsCall())
    decreases es, 0
  {
    var has := IsCall();
    OccursNowhere(Children, has);
    if es != [] {
      CallsExactly(es[0]);
      CallsExactlySeq(es[1..]);
      OccursCons(Children, es[0], es[1..], has);
      HeadAndTail(es);
    }
  }

  lemma {:induction false} AccessorsExactly(e: Expr)
    ensures ContainsHostsAccessor(e) <==> Occurs(Children, e, NamesHosts())
    decreases e, 0
  {
    var has := NamesHosts();
    OccursHere(Children, e, has);
    ChildrenOccur(Children, e, has);
    match e
    case Lit(_) =>
    case Ident(_) =>
    case Select(o, _) => AccessorsExactly(o);
    case Index(o, k) => AccessorsExactly(o); AccessorsExactly(k);
    case Has(x) => AccessorsExactly(x);
    case Default(x, y) => AccessorsExactly(x); AccessorsExactly(y);
    case Node(_, kids) => AccessorsExactlySeq(kids);
    case Compr(_, t, _, bodies) => AccessorsExactly(t); AccessorsExactlySeq(bodies);
    case Where(t, args) => AccessorsExactly(t); AccessorsExactlySeq(args);
  }

  lemma {:induction false} AccessorsExactlySeq(es: seq<Expr>)
    ensures ContainsHostsAccessorSeq(es) <==> OccursIn(Children, es, NamesHosts())
    decreases es, 0
  {
    var has := NamesHosts();
    OccursNowhere(Children, has);
    if es != [] {
      AccessorsExactly(es[0]);
      AccessorsExactlySeq(es[1..]);
      OccursCons(Children, es[0], es[1..], has);
      HeadAndTail(es);
    }
  }

  // ---- What can be rewritten --------------------------------------------------------------------

  /** What the rewrite visits: map literals are copied, and of a where-call only another one it is made on. */
  function Visited(e: Expr): seq<Expr> {
    match e
    case Node(op, kids) => if op == MapOp then [] else kids
    case Where(t, _) => if t.Where? then [t] else []
    case _ => Children(e)
  }

  /** The predicate is one string literal that parses to an expression without where-calls. */
  ghost predicate IsPredicate(args: seq<Expr>, parse: Parser) {
    |args| == 1 && args[0].Lit? && args[0].v.VStr?
    && parse(args[0].v.s).Some? && !Occurs(Children, parse(args[0].v.s).value, IsCall())
  }

  /** The receiver is the hosts or another where-call, and the predicate is one. */
  ghost predicate WellFormed(e: Expr, parse: Parser) {
    e.Where? ==>
      && (e.target == Select(Ident("soulprint"), "hosts") || e.target == Ident("soulprint") || e.target.Where?)
      && IsPredicate(e.args, parse)
  }

  ghost function IllFormed(parse: Parser): Expr -> bool {
    (x: Expr) => !WellFormed(x, parse)
  }

  lemma PredicateExactly(args: seq<Expr>, parse: Parser)
    ensures PredicateOf(args, parse).Some? <==> IsPredicate(args, parse)
    ensures PredicateOf(args, parse).Some? ==> PredicateOf(args, parse) == parse(args[0].v.s)
  {
    if |args| == 1 && args[0].Lit? && args[0].v.VStr? && parse(args[0].v.s).Some? {
      CallsExactly(parse(args[0].v.s).value);
    }
  }

  lemma {:induction false} RewriteExactly(e: Expr, iter: string, parse: Parser)
    ensures RewriteNode(e, iter, parse).Some? <==> !Occurs(Visited, e, IllFormed(parse))
    decreases e, 0
  {
    var has := IllFormed(parse);
    OccursHere(Visited, e, has);
    OccursNowhere(Visited, has);
    ChildrenOccur(Visited, e, has);
    match e
    case Lit(_) =>
    case Ident(_) =>
    case Select(o, _) => RewriteExactly(o, iter, parse);
    case Index(o, k) => RewriteExactly(o, iter, parse); RewriteExactly(k, iter, parse);
    case Has(x) => RewriteExactly(x, iter, parse);
    case Default(x, y) => RewriteExactly(x, iter, parse); RewriteExactly(y, iter, parse);
    case Node(op, kids) => if op != MapOp { RewriteExactlySeq(kids, iter, parse); }
    case Compr(_, t, _, bodies) => RewriteExactly(t, iter, parse); RewriteExactlySeq(bodies, iter, parse);
    case Where(t, args) =>
      PredicateExactly(args, parse);
      if t.Where? {
        OccursOnce(Visited, t, has);
        RewriteExactly(t, iter, parse);
      }
  }

  lemma {:induction false} RewriteExactlySeq(es: seq<Expr>, iter: string, parse: Parser)
    ensures RewriteSeq(es, iter, parse).Some? <==> !OccursIn(Visited, es, IllFormed(parse))
    decreases es, 0
  {
    var has := IllFormed(parse);
    OccursNowhere(Visited, has);
    if es != [] {
      RewriteExactly(es[0], iter, parse);
      RewriteExactlySeq(es[1..], iter, parse);
      OccursCons(Visited, es[0], es[1..], has);
      HeadAndTail(es);
    }
  }

  /** Where hosts are not allowed a text that names them is refused. Of the others one without a where-call is
      left as it is, and one with some is rewritten if and only if each of those visited is well formed. */
  lemma TakesExactly(e: Expr, allowHosts: bool, parse: Parser)
    ensures var out := RewriteHostsWhere(e, allowHosts, parse);
      && (out == HostsUnavailable <==> !allowHosts && Occurs(Children, e, NamesHosts()))
      && (out != HostsUnavailable ==>
            (out.Rewritten? <==> !Occurs(Children, e, IsCall()) || !Occurs(Visited, e, IllFormed(parse))))
      && (out.Rewritten? && !Occurs(Children, e, IsCall()) ==> out.tree == e)
  {
    CallsExactly(e);
    AccessorsExactly(e);
    RewriteExactly(e, FreeIterVar(e, parse), parse);
  }

  // ---- The filter's variable --------------------------------------------------------------------

  /** A name, the name of a field, or a variable that is declared. */
  function CarriesIt(n: string): Expr -> bool {
    (x: Expr) => (x.Ident? && x.name == n) || (x.Select? && x.field == n) || (x.Compr? && x.iter == n)
  }

  /** A where-call whose predicate carries it. */
  ghost function HidesIt(n: string, parse: Parser): Expr -> bool {
    (x: Expr) => x.Where? && |x.args| == 1 && x.args[0].Lit? && x.args[0].v.VStr? &&
      parse(x.args[0].v.s).Some? && Occurs(Children, parse(x.args[0].v.s).value, CarriesIt(n))
  }

  lemma {:induction false} NamesExactly(n: string, e: Expr)
    ensures n in NamesOf(e) <==> Occurs(Children, e, CarriesIt(n))
    decreases e, 0
  {
    var has := CarriesIt(n);
    OccursHere(Children, e, has);
    ChildrenOccur(Children, e, has);
    match e
    case Lit(_) =>
    case Ident(_) =>
    case Select(o, _) => NamesExactly(n, o);
    case Index(o, k) => NamesExactly(n, o); NamesExactly(n, k);
    case Has(x) => NamesExactly(n, x);
    case Default(x, y) => NamesExactly(n, x); NamesExactly(n, y);
    case Node(_, kids) => NamesExactlySeq(n, kids);
    case Compr(_, t, _, bodies) => NamesExactly(n, t); NamesExactlySeq(n, bodies);
    case Where(t, args) => NamesExactly(n, t); NamesExactlySeq(n, args);
  }

  lemma {:induction false} NamesExactlySeq(n: string, es: seq<Expr>)
    ensures n in NamesOfSeq(es) <==> OccursIn(Children, es, CarriesIt(n))
    decreases es, 0
  {
    OccursNowhere(Children, CarriesIt(n));
    if es != [] {
      NamesExactly(n, es[0]);
      NamesExactlySeq(n, es[1..]);
      OccursCons(Children, es[0], es[1..], CarriesIt(n));
      HeadAndTail(es);
    }
  }

  lemma {:induction false} HiddenExactly(n: string, e: Expr, parse: Parser)
    ensures n in PredicateNames(e, parse) <==> Occurs(Children, e, HidesIt(n, parse))
    decreases e, 0
  {
    var has := HidesIt(n, parse);
    OccursHere(Children, e, has);
    ChildrenOccur(Children, e, has);
    match e
    case Lit(_) =>
    case Ident(_) =>
    case Select(o, _) => HiddenExactly(n, o, parse);
    case Index(o, k) => HiddenExactly(n, o, parse); HiddenExactly(n, k, parse);
    case Has(x) => HiddenExactly(n, x, parse);
    case Default(x, y) => HiddenExactly(n, x, parse); HiddenExactly(n, y, parse);
    case Node(_, kids) => HiddenExactlySeq(n, kids, parse);
    case Compr(_, t, _, bodies) => HiddenExactly(n, t, parse); HiddenExactlySeq(n, bodies, parse);
    case Where(t, args) =>
      HiddenExactly(n, t, parse);
      HiddenExactlySeq(n, args, parse);
      if |args| == 1 && args[0].Lit? && args[0].v.VStr? && parse(args[0].v.s).Some? {
        NamesExactly(n, parse(args[0].v.s).value);
      }
  }

  lemma {:induction false} HiddenExactlySeq(n: string, es: seq<Expr>, parse: Parser)
    ensures n in PredicateNamesSeq(es, parse) <==> OccursIn(Children, es, HidesIt(n, parse))
    decreases es, 0
  {
    OccursNowhere(Children, HidesIt(n, parse));
    if es != [] {
      HiddenExactly(n, es[0], parse);
      HiddenExactlySeq(n, es[1..], parse);
      OccursCons(Children, es[0], es[1..], HidesIt(n, parse));
      HeadAndTail(es);
    }
  }

  ghost predicate Taken(n: string, e: Expr, parse: Parser) {
    Occurs(Children, e, CarriesIt(n)) || Occurs(Children, e, HidesIt(n, parse))
  }

  /** The variable is `__host` where that is not taken, and else the first `__host<i>` that is not. */
  lemma VariableExactly(e: Expr, parse: Parser, host: string)
    requires host == "__host"
    ensures var x := FreeIterVar(e, parse);
      && !Taken(x, e, parse)
      && if !Taken(host, e, parse) then x == host
         else exists i: nat :: x == Candidate(host, i) && forall j: nat :: j < i ==> Taken(Candidate(host, j), e, parse)
  {
    forall n ensures n in NamesOf(e) + PredicateNames(e, parse) <==> Taken(n, e, parse) {
      NamesExactly(n, e);
      HiddenExactly(n, e, parse);
    }
  }

  // ---- What a predicate says of a host ----------------------------------------------------------

  /** What has() and default() do to a name has no counterpart in plain CEL. */
  function AsksName(): Expr -> bool {
    (x: Expr) => (x.Has? && x.arg.Ident?) || (x.Default? && x.arg.Ident?)
  }

  /** The context a predicate still sees: five roots, by name. */
  predicate IsRoot(n: string) {
    n == "input" || n == "register" || n == "incarnation" || n == "soulprint" || n == "vars"
  }

  /** A scope in which the host's fields stand as names of their own, behind the roots and the local variables. */
  ghost predicate Spread(h: Value, locals: set<string>, act: Activation, env: Scope, scope: Scope, ops: Ops) {
    && (forall n :: IsRoot(n) || n in locals ==> Lookup(n, act, env, ops) == Lookup(n, act, scope, ops))
    && (forall n :: !IsRoot(n) && n !in locals ==>
          Lookup(n, act, scope, ops) == if h.VMap? && KStr(n) in h.m then Val(h.m[KStr(n)]) else Err)
  }

  /** A predicate says of a host what it says as plain CEL where the host's fields are the names in scope: the
      roots still come from around it, and a variable it binds itself hides a field. */
  lemma {:induction false} PredicateMeans(e: Expr, h: Value, locals: set<string>, act: Activation, env: Scope,
                                          scope: Scope, ops: Ops, parse: Parser)
    requires !Occurs(Children, e, AsksName()) && Spread(h, locals, act, env, scope, ops)
    ensures Meaning(e, Some(h), locals, act, env, ops, parse) == Eval(e, act, scope, ops)
    decreases e, 0
  {
    var has := AsksName();
    OccursHere(Children, e, has);
    ChildrenOccur(Children, e, has);
    match e
    case Lit(_) =>
    case Ident(_) =>
    case Select(o, _) => PredicateMeans(o, h, locals, act, env, scope, ops, parse);
    case Index(o, k) =>
      PredicateMeans(o, h, locals, act, env, scope, ops, parse);
      PredicateMeans(k, h, locals, act, env, scope, ops, parse);
    case Has(x) => FieldMeans(x, h, locals, act, env, scope, ops, parse);
    case Default(x, y) =>
      FieldMeans(x, h, locals, act, env, scope, ops, parse);
      PredicateMeans(x, h, locals, act, env, scope, ops, parse);
      PredicateMeans(y, h, locals, act, env, scope, ops, parse);
    case Node(_, kids) => PredicateMeansSeq(kids, h, locals, act, env, scope, ops, parse);
    case Compr(_, t, x, bodies) =>
      PredicateMeans(t, h, locals, act, env, scope, ops, parse);
      var xs := Elements(Eval(t, act, scope, ops), ops);
      if xs.Some? { PredicateMeansBodies(bodies, x, xs.value, h, locals, act, env, scope, ops, parse); }
    case Where(_, _) =>
  }

  lemma {:induction false} FieldMeans(x: Expr, h: Value, locals: set<string>, act: Activation, env: Scope,
                                      scope: Scope, ops: Ops, parse: Parser)
    requires !x.Ident? && !Occurs(Children, x, AsksName()) && Spread(h, locals, act, env, scope, ops)
    ensures MeaningOfHas(x, Some(h), locals, act, env, ops, parse)
      == if x.Select? then HasOf(Eval(x.operand, act, scope, ops), x.field) else Err
    decreases x, 0
  {
    if x.Select? {
      OccursHere(Children, x, AsksName());
      ChildrenOccur(Children, x, AsksName());
      PredicateMeans(x.operand, h, locals, act, env, scope, ops, parse);
    }
  }

  lemma {:induction false} PredicateMeansSeq(es: seq<Expr>, h: Value, locals: set<string>, act: Activation,
                                             env: Scope, scope: Scope, ops: Ops, parse: Parser)
    requires !OccursIn(Children, es, AsksName()) && Spread(h, locals, act, env, scope, ops)
    ensures MeaningSeq(es, Some(h), locals, act, env, ops, parse) == EvalSeq(es, act, scope, ops)
    decreases es, 0
  {
    if es != [] {
      HeadAndTail(es);
      OccursCons(Children, es[0], es[1..], AsksName());
      PredicateMeans(es[0], h, locals, act, env, scope, ops, parse);
      PredicateMeansSeq(es[1..], h, locals, act, env, scope, ops, parse);
    }
  }

  lemma {:induction false} PredicateMeansBodies(bodies: seq<Expr>, x: string, xs: seq<Value>, h: Value,
                                                locals: set<string>, act: Activation, env: Scope, scope: Scope,
                                                ops: Ops, parse: Parser)
    requires !OccursIn(Children, bodies, AsksName()) && Spread(h, locals, act, env, scope, ops)
    ensures MeaningBodies(bodies, x, xs, Some(h), locals, act, env, ops, parse)
      == EvalBodies(bodies, x, xs, act, scope, ops)
    decreases bodies, 0
  {
    if bodies != [] {
      HeadAndTail(bodies);
      OccursCons(Children, bodies[0], bodies[1..], AsksName());
      PredicateMeansEach(bodies[0], x, xs, h, locals, act, env, scope, ops, parse);
      PredicateMeansBodies(bodies[1..], x, xs, h, locals, act, env, scope, ops, parse);
    }
  }

  lemma {:induction false} PredicateMeansEach(body: Expr, x: string, xs: seq<Value>, h: Value, locals: set<string>,
                                              act: Activation, env: Scope, scope: Scope, ops: Ops, parse: Parser)
    requires !Occurs(Children, body, AsksName()) && Spread(h, locals, act, env, scope, ops)
    ensures MeaningEach(body, x, xs, Some(h), locals, act, env, ops, parse) == EvalEach(body, x, xs, act, scope, ops)
    decreases body, 1, |xs|
  {
    if xs != [] {
      PredicateMeans(body, h, locals + {x}, act, env[x := xs[0]], scope[x := xs[0]], ops, parse);
      PredicateMeansEach(body, x, xs[1..], h, locals, act, env, scope, ops, parse);
    }
  }

  /** has() of such a name asks the host for the field, and default() falls back only where it has none. */
  lemma NameAsked(n: string, y: Expr, h: map<Key, Value>, locals: set<string>, act: Activation, env: Scope, ops: Ops,
                  parse: Parser)
    requires !IsRoot(n) && n !in locals
    ensures Meaning(Has(Ident(n)), Some(VMap(h)), locals, act, env, ops, parse) == Val(VBool(KStr(n) in h))
    ensures Meaning(Default(Ident(n), y), Some(VMap(h)), locals, act, env, ops, parse)
      == if KStr(n) in h then Val(h[KStr(n)]) else Meaning(y, Some(VMap(h)), locals, act, env, ops, parse)
  {
  }

  /** A where-call is made on the hosts, on `soulprint` for them, or on another where-call, and nothing else. */
  lemma OtherReceiverErrs(t: Expr, args: seq<Expr>, act: Activation, env: Scope, ops: Ops, parse: Parser)
    requires !t.Where? && t != Ident("soulprint") && t != Select(Ident("soulprint"), "hosts")
    ensures Meaning(Where(t, args), None, {}, act, env, ops, parse) == Err
  {
  }
}
