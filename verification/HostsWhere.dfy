/** `soulprint.hosts.where("<predicate>")` compiled into a filter.

    The predicate is text inside a string literal: `parse` stands for the parser, and the theorems hold
    for every choice of it. Inside the predicate a bare name is a field of the host it is asked about;
    the rewrite qualifies such names with the filter's variable, and the result is proved to be what
    the construct means (`Meaning`), with nothing captured.
 */
module HostsWhere {
  import opened Cel
  import opened Wrappers
  import opened Names

  const HOSTS := "hosts"
  const HOST_PREFIX := "__host"

  /** The roots a predicate reads from the surrounding context, not from the host. */
  const ROOTS := {INPUT, REGISTER, INCARNATION, SOULPRINT, VARS}

  type Parser = string -> Option<Expr>

  predicate IsSoulprintHosts(e: Expr) {
    e.Select? && IsIdent(e.operand, SOULPRINT) && e.field == HOSTS
  }

  // ---- What the construct means -----------------------------------------------------------

  function Lookup(n: string, act: Activation, env: Scope, ops: Ops): Outcome {
    if n in env then Val(env[n]) else if n in act then Val(act[n]) else ops.ident(n)
  }

  /** A name in a predicate that is neither a context root nor a variable the predicate itself binds. */
  predicate IsBare(n: string, locals: set<string>) {
    n !in ROOTS && n !in locals
  }

  /** The list a receiver stands for; `soulprint` alone is short for `soulprint.hosts`. */
  function ReceiverOf(recv: Expr, o: Outcome): Outcome {
    if IsSoulprintHosts(recv) || recv.Where? then o
    else if IsIdent(recv, SOULPRINT) then SelectOf(o, HOSTS)
    else Err
  }

  /** The predicate of a where-call, if it has one. */
  function PredicateOf(args: seq<Expr>, parse: Parser): Option<Expr> {
    if |args| != 1 || !args[0].Lit? || !args[0].v.VStr? then None
    else
      var p := parse(args[0].v.s);
      if p.None? || ContainsWhere(p.value) then None else p
  }

  /** The meaning of an expression with where-calls in it. host is the host a predicate is asked
      about, and locals the variables bound inside that predicate; outside a predicate there is none. */
  function Meaning(e: Expr, host: Option<Value>, locals: set<string>, act: Activation, env: Scope, ops: Ops,
                   parse: Parser): Outcome
    decreases if host.None? then 1 else 0, e, 0
  {
    match e
    case Lit(v) => Val(v)
    case Ident(n) =>
      if host.Some? && IsBare(n, locals) then SelectOf(Val(host.value), n) else Lookup(n, act, env, ops)
    case Select(o, f) => SelectOf(Meaning(o, host, locals, act, env, ops, parse), f)
    case Index(o, k) =>
      IndexOf(Meaning(o, host, locals, act, env, ops, parse), Meaning(k, host, locals, act, env, ops, parse), ops)
    case Has(x) => MeaningOfHas(x, host, locals, act, env, ops, parse)
    case Default(x, y) =>
      if x.Ident? && !(host.Some? && IsBare(x.name, locals)) then Meaning(x, host, locals, act, env, ops, parse)
      else if x.Ident? || x.Select? then
        CondOf(MeaningOfHas(x, host, locals, act, env, ops, parse),
               Meaning(x, host, locals, act, env, ops, parse),
               Meaning(y, host, locals, act, env, ops, parse))
      else Err
    case Node(op, kids) => Apply(op, MeaningSeq(kids, host, locals, act, env, ops, parse), ops)
    case Compr(macro, t, x, bodies) =>
      var xs := Elements(Meaning(t, host, locals, act, env, ops, parse), ops);
      if xs.None? then Err
      else Aggregate(macro, xs.value, MeaningBodies(bodies, x, xs.value, host, locals, act, env, ops, parse))
    case Where(t, args) =>
      var p := PredicateOf(args, parse);
      if host.Some? || p.None? then Err
      else
        var xs := Elements(ReceiverOf(t, Meaning(t, None, {}, act, env, ops, parse)), ops);
        if xs.None? then Err else Aggregate(Filter, xs.value, [Answers(p.value, xs.value, act, env, ops, parse)])
  }

  /** has(x): of a field, or of a bare name, which is a field of the host. */
  function MeaningOfHas(x: Expr, host: Option<Value>, locals: set<string>, act: Activation, env: Scope, ops: Ops,
                        parse: Parser): Outcome
    decreases if host.None? then 1 else 0, x, 0
  {
    if x.Ident? && host.Some? && IsBare(x.name, locals) then HasOf(Val(host.value), x.name)
    else if x.Select? then HasOf(Meaning(x.operand, host, locals, act, env, ops, parse), x.field)
    else Err
  }

  function MeaningSeq(es: seq<Expr>, host: Option<Value>, locals: set<string>, act: Activation, env: Scope, ops: Ops,
                      parse: Parser)
    : (outs: seq<Outcome>)
    ensures |outs| == |es|
    decreases if host.None? then 1 else 0, es, 0
  {
    if es == [] then []
    else [Meaning(es[0], host, locals, act, env, ops, parse)] + MeaningSeq(es[1..], host, locals, act, env, ops, parse)
  }

  function MeaningBodies(bodies: seq<Expr>, x: string, xs: seq<Value>, host: Option<Value>, locals: set<string>,
                         act: Activation, env: Scope, ops: Ops, parse: Parser): (rows: seq<seq<Outcome>>)
    ensures |rows| == |bodies|
    ensures forall row :: row in rows ==> |row| == |xs|
    decreases if host.None? then 1 else 0, bodies, 0
  {
    if bodies == [] then []
    else [MeaningEach(bodies[0], x, xs, host, locals, act, env, ops, parse)]
         + MeaningBodies(bodies[1..], x, xs, host, locals, act, env, ops, parse)
  }

  function MeaningEach(body: Expr, x: string, xs: seq<Value>, host: Option<Value>, locals: set<string>,
                       act: Activation, env: Scope, ops: Ops, parse: Parser): (outs: seq<Outcome>)
    ensures |outs| == |xs|
    decreases if host.None? then 1 else 0, body, 1, |xs|
  {
    if xs == [] then []
    else [Meaning(body, host, locals + {x}, act, env[x := xs[0]], ops, parse)]
         + MeaningEach(body, x, xs[1..], host, locals, act, env, ops, parse)
  }

  /** What the predicate answers about each host. */
  function Answers(p: Expr, hosts: seq<Value>, act: Activation, env: Scope, ops: Ops,
                   parse: Parser): (outs: seq<Outcome>)
    ensures |outs| == |hosts|
    decreases 0, p, 2, |hosts|
  {
    if hosts == [] then []
    else [Meaning(p, Some(hosts[0]), {}, act, env, ops, parse)] + Answers(p, hosts[1..], act, env, ops, parse)
  }

  // ---- Walks over the tree ----------------------------------------------------------------

  predicate ContainsWhere(e: Expr)
    decreases e, 0
  {
    match e
    case Lit(_) => false
    case Ident(_) => false
    case Select(o, _) => ContainsWhere(o)
    case Index(o, k) => ContainsWhere(o) || ContainsWhere(k)
    case Has(x) => ContainsWhere(x)
    case Default(x, y) => ContainsWhere(x) || ContainsWhere(y)
    case Node(_, kids) => ContainsWhereSeq(kids)
    case Compr(_, t, _, bodies) => ContainsWhere(t) || ContainsWhereSeq(bodies)
    case Where(_, _) => true
  }

  predicate ContainsWhereSeq(es: seq<Expr>)
    decreases es, 0
  {
    es != [] && (ContainsWhere(es[0]) || ContainsWhereSeq(es[1..]))
  }

  predicate ContainsHostsAccessor(e: Expr)
    decreases e, 0
  {
    match e
    case Lit(_) => false
    case Ident(_) => false
    case Select(o, _) => IsSoulprintHosts(e) || ContainsHostsAccessor(o)
    case Index(o, k) => ContainsHostsAccessor(o) || ContainsHostsAccessor(k)
    case Has(x) => ContainsHostsAccessor(x)
    case Default(x, y) => ContainsHostsAccessor(x) || ContainsHostsAccessor(y)
    case Node(_, kids) => ContainsHostsAccessorSeq(kids)
    case Compr(_, t, _, bodies) => ContainsHostsAccessor(t) || ContainsHostsAccessorSeq(bodies)
    case Where(t, args) => IsIdent(t, SOULPRINT) || ContainsHostsAccessor(t) || ContainsHostsAccessorSeq(args)
  }

  predicate ContainsHostsAccessorSeq(es: seq<Expr>)
    decreases es, 0
  {
    es != [] && (ContainsHostsAccessor(es[0]) || ContainsHostsAccessorSeq(es[1..]))
  }

  /** The identifiers, declared variables and field names of a tree. */
  function NamesOf(e: Expr): set<string>
    decreases e, 0
  {
    match e
    case Lit(_) => {}
    case Ident(n) => {n}
    case Select(o, f) => NamesOf(o) + {f}
    case Index(o, k) => NamesOf(o) + NamesOf(k)
    case Has(x) => NamesOf(x)
    case Default(x, y) => NamesOf(x) + NamesOf(y)
    case Node(_, kids) => NamesOfSeq(kids)
    case Compr(_, t, x, bodies) => NamesOf(t) + {x} + NamesOfSeq(bodies)
    case Where(t, args) => NamesOf(t) + NamesOfSeq(args)
  }

  function NamesOfSeq(es: seq<Expr>): set<string>
    decreases es, 0
  {
    if es == [] then {} else NamesOf(es[0]) + NamesOfSeq(es[1..])
  }

  /** The names used by the predicates inside the tree's string literals, which the tree hides. */
  function PredicateNames(e: Expr, parse: Parser): set<string>
    decreases e, 0
  {
    match e
    case Lit(_) => {}
    case Ident(_) => {}
    case Select(o, _) => PredicateNames(o, parse)
    case Index(o, k) => PredicateNames(o, parse) + PredicateNames(k, parse)
    case Has(x) => PredicateNames(x, parse)
    case Default(x, y) => PredicateNames(x, parse) + PredicateNames(y, parse)
    case Node(_, kids) => PredicateNamesSeq(kids, parse)
    case Compr(_, t, _, bodies) => PredicateNames(t, parse) + PredicateNamesSeq(bodies, parse)
    case Where(t, args) =>
      PredicateNames(t, parse) + PredicateNamesSeq(args, parse) +
      if |args| == 1 && args[0].Lit? && args[0].v.VStr? && parse(args[0].v.s).Some?
      then NamesOf(parse(args[0].v.s).value) else {}
  }

  function PredicateNamesSeq(es: seq<Expr>, parse: Parser): set<string>
    decreases es, 0
  {
    if es == [] then {} else PredicateNames(es[0], parse) + PredicateNamesSeq(es[1..], parse)
  }

  /** A variable for the filter: `__host`, or the first `__host<i>` that occurs nowhere. */
  function FreeIterVar(e: Expr, parse: Parser): (x: string)
    ensures x !in NamesOf(e) + PredicateNames(e, parse)
  {
    var used := NamesOf(e) + PredicateNames(e, parse);
    if HOST_PREFIX !in used then HOST_PREFIX else FirstFree(HOST_PREFIX, used, 0)
  }

  method FindIterVar(e: Expr, parse: Parser) returns (x: string)
    ensures x == FreeIterVar(e, parse)
  {
    var used := NamesOf(e) + PredicateNames(e, parse);
    if HOST_PREFIX !in used { return HOST_PREFIX; }
    x := FindFree(HOST_PREFIX, used);
  }

  // ---- The rewrite ------------------------------------------------------------------------

  /** The predicate with its bare names qualified to iter.<name>. Map literals are copied. */
  function Qualify(p: Expr, iter: string, bound: set<string>): Expr
    decreases p, 0
  {
    match p
    case Lit(_) => p
    case Ident(n) => if n == iter || !IsBare(n, bound) then p else Select(Ident(iter), n)
    case Select(o, f) => Select(Qualify(o, iter, bound), f)
    case Index(o, k) => Index(Qualify(o, iter, bound), Qualify(k, iter, bound))
    case Has(x) => Has(Qualify(x, iter, bound))
    case Default(x, y) => Default(Qualify(x, iter, bound), Qualify(y, iter, bound))
    case Node(op, kids) => if op == MapOp then p else Node(op, QualifySeq(kids, iter, bound))
    case Compr(macro, t, x, bodies) => Compr(macro, Qualify(t, iter, bound), x, QualifySeq(bodies, iter, bound + {x}))
    case Where(_, _) => p
  }

  function QualifySeq(es: seq<Expr>, iter: string, bound: set<string>): (out: seq<Expr>)
    ensures |out| == |es|
    decreases es, 0
  {
    if es == [] then [] else [Qualify(es[0], iter, bound)] + QualifySeq(es[1..], iter, bound)
  }

  /** The tree with every where-call rewritten, or None where the rewrite refuses: a receiver other
      than soulprint.hosts / soulprint / a where-call, or a predicate that is not one string literal
      holding a where-free expression. Map literals are copied. */
  function RewriteNode(e: Expr, iter: string, parse: Parser): Option<Expr>
    decreases e, 1
  {
    match e
    case Lit(_) => Some(e)
    case Ident(_) => Some(e)
    case Select(o, f) =>
      var o' := RewriteNode(o, iter, parse);
      if o'.Some? then Some(Select(o'.value, f)) else None
    case Index(o, k) =>
      var o', k' := RewriteNode(o, iter, parse), RewriteNode(k, iter, parse);
      if o'.Some? && k'.Some? then Some(Index(o'.value, k'.value)) else None
    case Has(x) =>
      var x' := RewriteNode(x, iter, parse);
      if x'.Some? then Some(Has(x'.value)) else None
    case Default(x, y) =>
      var x', y' := RewriteNode(x, iter, parse), RewriteNode(y, iter, parse);
      if x'.Some? && y'.Some? then Some(Default(x'.value, y'.value)) else None
    case Node(op, kids) =>
      if op == MapOp then Some(e)
      else
        var ks := RewriteSeq(kids, iter, parse);
        if ks.Some? then Some(Node(op, ks.value)) else None
    case Compr(macro, t, x, bodies) =>
      var t', bs := RewriteNode(t, iter, parse), RewriteSeq(bodies, iter, parse);
      if t'.Some? && bs.Some? then Some(Compr(macro, t'.value, x, bs.value)) else None
    case Where(t, args) =>
      var recv, p := HostsReceiver(t, iter, parse), PredicateOf(args, parse);
      if recv.Some? && p.Some? then Some(Compr(Filter, recv.value, iter, [Qualify(p.value, iter, {})])) else None
  }

  function HostsReceiver(recv: Expr, iter: string, parse: Parser): Option<Expr>
    decreases recv, 2
  {
    if IsSoulprintHosts(recv) then Some(recv)
    else if IsIdent(recv, SOULPRINT) then Some(Select(Ident(SOULPRINT), HOSTS))
    else if recv.Where? then RewriteNode(recv, iter, parse)
    else None
  }

  function RewriteSeq(es: seq<Expr>, iter: string, parse: Parser): (r: Option<seq<Expr>>)
    ensures r.Some? ==> |r.value| == |es|
    decreases es, 0
  {
    if es == [] then Some([])
    else
      var e', rest := RewriteNode(es[0], iter, parse), RewriteSeq(es[1..], iter, parse);
      if e'.Some? && rest.Some? then Some([e'.value] + rest.value) else None
  }

  datatype Rewriting = Rewritten(tree: Expr) | HostsUnavailable | DoesNotCompile

  function RewriteHostsWhere(e: Expr, allowHosts: bool, parse: Parser): Rewriting {
    if !allowHosts && ContainsHostsAccessor(e) then HostsUnavailable
    else if !ContainsWhere(e) then Rewritten(e)
    else
      var out := RewriteNode(e, FreeIterVar(e, parse), parse);
      if out.Some? then Rewritten(out.value) else DoesNotCompile
  }

  // ---- The fragment -----------------------------------------------------------------------

  /** No bare name inside a map literal of the predicate, where the rewrite leaves it alone. */
  predicate MapsAreClosed(p: Expr, bound: set<string>)
    decreases p, 0
  {
    match p
    case Lit(_) => true
    case Ident(_) => true
    case Select(o, _) => MapsAreClosed(o, bound)
    case Index(o, k) => MapsAreClosed(o, bound) && MapsAreClosed(k, bound)
    case Has(x) => MapsAreClosed(x, bound)
    case Default(x, y) => MapsAreClosed(x, bound) && MapsAreClosed(y, bound)
    case Node(op, kids) => (op == MapOp ==> NoBareSeq(kids, bound)) && MapsAreClosedSeq(kids, bound)
    case Compr(_, t, x, bodies) => MapsAreClosed(t, bound) && MapsAreClosedSeq(bodies, bound + {x})
    case Where(_, _) => true
  }

  predicate MapsAreClosedSeq(es: seq<Expr>, bound: set<string>)
    decreases es, 0
  {
    es == [] || (MapsAreClosed(es[0], bound) && MapsAreClosedSeq(es[1..], bound))
  }

  predicate NoBare(e: Expr, bound: set<string>)
    decreases e, 0
  {
    match e
    case Lit(_) => true
    case Ident(n) => !IsBare(n, bound)
    case Select(o, _) => NoBare(o, bound)
    case Index(o, k) => NoBare(o, bound) && NoBare(k, bound)
    case Has(x) => NoBare(x, bound)
    case Default(x, y) => NoBare(x, bound) && NoBare(y, bound)
    case Node(_, kids) => NoBareSeq(kids, bound)
    case Compr(_, t, x, bodies) => NoBare(t, bound) && NoBareSeq(bodies, bound + {x})
    case Where(_, _) => true
  }

  predicate NoBareSeq(es: seq<Expr>, bound: set<string>)
    decreases es, 0
  {
    es == [] || (NoBare(es[0], bound) && NoBareSeq(es[1..], bound))
  }

  /** No where-call inside a map literal, which the rewrite copies, and every predicate in the
      fragment. */
  predicate InFragment(e: Expr, parse: Parser)
    decreases e, 0
  {
    match e
    case Lit(_) => true
    case Ident(_) => true
    case Select(o, _) => InFragment(o, parse)
    case Index(o, k) => InFragment(o, parse) && InFragment(k, parse)
    case Has(x) => InFragment(x, parse)
    case Default(x, y) => InFragment(x, parse) && InFragment(y, parse)
    case Node(op, kids) => (op == MapOp ==> !ContainsWhereSeq(kids)) && InFragmentSeq(kids, parse)
    case Compr(_, t, _, bodies) => InFragment(t, parse) && InFragmentSeq(bodies, parse)
    case Where(t, args) =>
      InFragment(t, parse) && (var p := PredicateOf(args, parse); p.Some? ==> MapsAreClosed(p.value, {}))
  }

  predicate InFragmentSeq(es: seq<Expr>, parse: Parser)
    decreases es, 0
  {
    es == [] || (InFragment(es[0], parse) && InFragmentSeq(es[1..], parse))
  }

  // ---- Inside a predicate -----------------------------------------------------------------

  lemma {:induction false} ClosedIsUnqualified(e: Expr, iter: string, bound: set<string>)
    requires NoBare(e, bound)
    ensures Qualify(e, iter, bound) == e
    decreases e, 0
  {
    match e
    case Lit(_) =>
    case Ident(_) =>
    case Select(o, _) => ClosedIsUnqualified(o, iter, bound);
    case Index(o, k) => ClosedIsUnqualified(o, iter, bound); ClosedIsUnqualified(k, iter, bound);
    case Has(x) => ClosedIsUnqualified(x, iter, bound);
    case Default(x, y) => ClosedIsUnqualified(x, iter, bound); ClosedIsUnqualified(y, iter, bound);
    case Node(_, kids) => ClosedIsUnqualifiedSeq(kids, iter, bound);
    case Compr(_, t, x, bodies) =>
      ClosedIsUnqualified(t, iter, bound);
      ClosedIsUnqualifiedSeq(bodies, iter, bound + {x});
    case Where(_, _) =>
  }

  lemma {:induction false} ClosedIsUnqualifiedSeq(es: seq<Expr>, iter: string, bound: set<string>)
    requires NoBareSeq(es, bound)
    ensures QualifySeq(es, iter, bound) == es
    decreases es, 0
  {
    if es != [] {
      ClosedIsUnqualified(es[0], iter, bound);
      ClosedIsUnqualifiedSeq(es[1..], iter, bound);
    }
  }

  /** With the filter's variable bound to a host, the qualified predicate evaluates to what the
      predicate says about that host: bare names are its fields, roots come from the surrounding
      context, and the predicate's own variables stay its own. */
  lemma {:induction false} QualifiedMeans(p: Expr, iter: string, h: Value, locals: set<string>,
                                          act: Activation, env: Scope, ops: Ops, parse: Parser)
    requires iter !in NamesOf(p) && !ContainsWhere(p) && MapsAreClosed(p, locals)
    ensures Eval(Qualify(p, iter, locals), act, env[iter := h], ops)
      == Meaning(p, Some(h), locals, act, env, ops, parse)
    decreases p, 1
  {
    match p
    case Lit(_) =>
    case Ident(n) => QualifiedName(n, iter, h, locals, act, env, ops);
    case Select(o, _) => QualifiedMeans(o, iter, h, locals, act, env, ops, parse);
    case Index(o, k) =>
      QualifiedMeans(o, iter, h, locals, act, env, ops, parse);
      QualifiedMeans(k, iter, h, locals, act, env, ops, parse);
    case Has(x) => QualifiedHas(x, iter, h, locals, act, env, ops, parse);
    case Default(x, y) => QualifiedDefault(x, y, iter, h, locals, act, env, ops, parse);
    case Node(op, kids) =>
      QualifiedSeq(kids, iter, h, locals, act, env, ops, parse);
      if op == MapOp { ClosedIsUnqualifiedSeq(kids, iter, locals); }
    case Compr(_, _, _, _) => QualifiedCompr(p, iter, h, locals, act, env, ops, parse);
  }

  lemma {:induction false} QualifiedCompr(p: Expr, iter: string, h: Value, locals: set<string>,
                                          act: Activation, env: Scope, ops: Ops, parse: Parser)
    requires p.Compr?
    requires iter !in NamesOf(p) && !ContainsWhere(p) && MapsAreClosed(p, locals)
    ensures Eval(Qualify(p, iter, locals), act, env[iter := h], ops)
      == Meaning(p, Some(h), locals, act, env, ops, parse)
    decreases p, 0
  {
    QualifiedMeans(p.target, iter, h, locals, act, env, ops, parse);
    var xs := Elements(Meaning(p.target, Some(h), locals, act, env, ops, parse), ops);
    if xs.Some? { QualifiedBodies(p.bodies, p.iter, xs.value, iter, h, locals, act, env, ops, parse); }
  }

  lemma QualifiedName(n: string, iter: string, h: Value, locals: set<string>, act: Activation, env: Scope, ops: Ops)
    requires n != iter
    ensures Eval(Qualify(Ident(n), iter, locals), act, env[iter := h], ops)
         == if IsBare(n, locals) then SelectOf(Val(h), n) else Lookup(n, act, env, ops)
  {
    assert Eval(Ident(iter), act, env[iter := h], ops) == Val(h);
  }

  lemma {:induction false} QualifiedDefault(x: Expr, y: Expr, iter: string, h: Value, locals: set<string>,
                                            act: Activation, env: Scope, ops: Ops, parse: Parser)
    requires iter !in NamesOf(x) && !ContainsWhere(x) && MapsAreClosed(x, locals)
    requires iter !in NamesOf(y) && !ContainsWhere(y) && MapsAreClosed(y, locals)
    ensures Eval(Qualify(Default(x, y), iter, locals), act, env[iter := h], ops)
         == Meaning(Default(x, y), Some(h), locals, act, env, ops, parse)
    decreases Default(x, y), 0
  {
    QualifiedHas(x, iter, h, locals, act, env, ops, parse);
    QualifiedMeans(x, iter, h, locals, act, env, ops, parse);
    QualifiedMeans(y, iter, h, locals, act, env, ops, parse);
    var x', y' := Qualify(x, iter, locals), Qualify(y, iter, locals);
    assert Qualify(Default(x, y), iter, locals) == Default(x', y');
    if x'.Select? {
      assert Eval(Default(x', y'), act, env[iter := h], ops) ==
        CondOf(Eval(Has(x'), act, env[iter := h], ops),
               Eval(x', act, env[iter := h], ops), Eval(y', act, env[iter := h], ops));
    }
  }

  lemma {:induction false} QualifiedHas(x: Expr, iter: string, h: Value, locals: set<string>,
                                        act: Activation, env: Scope, ops: Ops, parse: Parser)
    requires iter !in NamesOf(x) && !ContainsWhere(x) && MapsAreClosed(x, locals)
    ensures Eval(Has(Qualify(x, iter, locals)), act, env[iter := h], ops)
      == MeaningOfHas(x, Some(h), locals, act, env, ops, parse)
    decreases x, 0
  {
    if x.Select? {
      QualifiedMeans(x.operand, iter, h, locals, act, env, ops, parse);
    }
  }

  lemma {:induction false} QualifiedSeq(es: seq<Expr>, iter: string, h: Value, locals: set<string>,
                                        act: Activation, env: Scope, ops: Ops, parse: Parser)
    requires iter !in NamesOfSeq(es) && !ContainsWhereSeq(es) && MapsAreClosedSeq(es, locals)
    ensures EvalSeq(QualifySeq(es, iter, locals), act, env[iter := h], ops)
         == MeaningSeq(es, Some(h), locals, act, env, ops, parse)
    decreases es, 0
  {
    if es != [] {
      QualifiedMeans(es[0], iter, h, locals, act, env, ops, parse);
      QualifiedSeq(es[1..], iter, h, locals, act, env, ops, parse);
      EvalSeqCons(Qualify(es[0], iter, locals), QualifySeq(es[1..], iter, locals), act, env[iter := h], ops);
    }
  }

  lemma {:induction false} QualifiedBodies(bodies: seq<Expr>, x: string, xs: seq<Value>, iter: string, h: Value,
                                           locals: set<string>, act: Activation, env: Scope, ops: Ops, parse: Parser)
    requires iter !in NamesOfSeq(bodies) && iter != x && !ContainsWhereSeq(bodies) &&
      MapsAreClosedSeq(bodies, locals + {x})
    ensures EvalBodies(QualifySeq(bodies, iter, locals + {x}), x, xs, act, env[iter := h], ops)
         == MeaningBodies(bodies, x, xs, Some(h), locals, act, env, ops, parse)
    decreases bodies, 0
  {
    if bodies != [] {
      QualifiedEach(bodies[0], x, xs, iter, h, locals, act, env, ops, parse);
      QualifiedBodies(bodies[1..], x, xs, iter, h, locals, act, env, ops, parse);
      var rest := QualifySeq(bodies[1..], iter, locals + {x});
      assert ([Qualify(bodies[0], iter, locals + {x})] + rest)[1..] == rest;
    }
  }

  lemma {:induction false} QualifiedEach(body: Expr, x: string, xs: seq<Value>, iter: string, h: Value,
                                         locals: set<string>, act: Activation, env: Scope, ops: Ops, parse: Parser)
    requires iter !in NamesOf(body) && iter != x && !ContainsWhere(body) && MapsAreClosed(body, locals + {x})
    ensures EvalEach(Qualify(body, iter, locals + {x}), x, xs, act, env[iter := h], ops)
         == MeaningEach(body, x, xs, Some(h), locals, act, env, ops, parse)
    decreases body, 2, |xs|
  {
    if xs != [] {
      assert env[iter := h][x := xs[0]] == env[x := xs[0]][iter := h];
      QualifiedMeans(body, iter, h, locals + {x}, act, env[x := xs[0]], ops, parse);
      QualifiedEach(body, x, xs[1..], iter, h, locals, act, env, ops, parse);
    }
  }

  lemma {:induction false} QualifiedAnswers(p: Expr, hosts: seq<Value>, iter: string, act: Activation, env: Scope,
                                            ops: Ops, parse: Parser)
    requires iter !in NamesOf(p) && !ContainsWhere(p) && MapsAreClosed(p, {})
    ensures EvalEach(Qualify(p, iter, {}), iter, hosts, act, env, ops) == Answers(p, hosts, act, env, ops, parse)
  {
    if hosts != [] {
      QualifiedMeans(p, iter, hosts[0], {}, act, env, ops, parse);
      QualifiedAnswers(p, hosts[1..], iter, act, env, ops, parse);
    }
  }

  // ---- The whole expression ---------------------------------------------------------------

  lemma {:induction false} WherelessUnchanged(es: seq<Expr>, iter: string, parse: Parser)
    requires !ContainsWhereSeq(es)
    ensures RewriteSeq(es, iter, parse) == Some(es)
    decreases es, 0
  {
    if es != [] {
      WherelessNodeUnchanged(es[0], iter, parse);
      WherelessUnchanged(es[1..], iter, parse);
      assert [es[0]] + es[1..] == es;
    }
  }

  lemma {:induction false} WherelessNodeUnchanged(e: Expr, iter: string, parse: Parser)
    requires !ContainsWhere(e)
    ensures RewriteNode(e, iter, parse) == Some(e)
    decreases e, 0
  {
    match e
    case Lit(_) =>
    case Ident(_) =>
    case Select(o, _) => WherelessNodeUnchanged(o, iter, parse);
    case Index(o, k) => WherelessNodeUnchanged(o, iter, parse); WherelessNodeUnchanged(k, iter, parse);
    case Has(x) => WherelessNodeUnchanged(x, iter, parse);
    case Default(x, y) => WherelessNodeUnchanged(x, iter, parse); WherelessNodeUnchanged(y, iter, parse);
    case Node(_, kids) => WherelessUnchanged(kids, iter, parse);
    case Compr(_, t, _, bodies) => WherelessNodeUnchanged(t, iter, parse); WherelessUnchanged(bodies, iter, parse);
  }

  /** The rewritten tree, evaluated by the ordinary evaluator, means what the author wrote: in every
      context and scope, where-calls chained, nested in comprehensions or combined. */
  lemma {:induction false} RewriteMeans(e: Expr, iter: string, locals: set<string>, act: Activation, env: Scope,
                                        ops: Ops, parse: Parser)
    requires RewriteNode(e, iter, parse).Some? && InFragment(e, parse) && iter !in PredicateNames(e, parse)
    ensures Eval(RewriteNode(e, iter, parse).value, act, env, ops) == Meaning(e, None, locals, act, env, ops, parse)
    decreases e, 1
  {
    match e
    case Lit(_) =>
    case Ident(_) =>
    case Select(o, _) => RewriteMeans(o, iter, locals, act, env, ops, parse);
    case Index(o, k) =>
      RewriteMeans(o, iter, locals, act, env, ops, parse);
      RewriteMeans(k, iter, locals, act, env, ops, parse);
    case Has(x) => RewriteHas(x, iter, locals, act, env, ops, parse);
    case Default(_, _) => RewriteDefaultMeans(e, iter, locals, act, env, ops, parse);
    case Node(op, kids) =>
      if op == MapOp { WherelessUnchanged(kids, iter, parse); }
      RewriteSeqMeans(kids, iter, locals, act, env, ops, parse);
    case Compr(_, _, _, _) => RewriteComprMeans(e, iter, locals, act, env, ops, parse);
    case Where(_, _) => RewriteWhereMeans(e, iter, locals, act, env, ops, parse);
  }

  lemma {:induction false} RewriteDefaultMeans(e: Expr, iter: string, locals: set<string>, act: Activation, env: Scope,
                                               ops: Ops, parse: Parser)
    requires e.Default?
    requires RewriteNode(e, iter, parse).Some? && InFragment(e, parse) && iter !in PredicateNames(e, parse)
    ensures Eval(RewriteNode(e, iter, parse).value, act, env, ops) == Meaning(e, None, locals, act, env, ops, parse)
    decreases e, 0
  {
    RewriteHas(e.arg, iter, locals, act, env, ops, parse);
    RewriteMeans(e.arg, iter, locals, act, env, ops, parse);
    RewriteMeans(e.fallback, iter, locals, act, env, ops, parse);
  }

  lemma {:induction false} RewriteComprMeans(e: Expr, iter: string, locals: set<string>, act: Activation, env: Scope,
                                             ops: Ops, parse: Parser)
    requires e.Compr?
    requires RewriteNode(e, iter, parse).Some? && InFragment(e, parse) && iter !in PredicateNames(e, parse)
    ensures Eval(RewriteNode(e, iter, parse).value, act, env, ops) == Meaning(e, None, locals, act, env, ops, parse)
    decreases e, 0
  {
    RewriteMeans(e.target, iter, locals, act, env, ops, parse);
    var xs := Elements(Meaning(e.target, None, locals, act, env, ops, parse), ops);
    if xs.Some? { RewriteBodiesMean(e.bodies, e.iter, xs.value, iter, locals, act, env, ops, parse); }
  }

  /** has() keeps its field: a field stays one, and a where-call is not one. */
  lemma {:induction false} RewriteHas(x: Expr, iter: string, locals: set<string>, act: Activation, env: Scope, ops: Ops,
                                      parse: Parser)
    requires RewriteNode(x, iter, parse).Some? && InFragment(x, parse) && iter !in PredicateNames(x, parse)
    ensures Eval(Has(RewriteNode(x, iter, parse).value), act, env, ops)
      == MeaningOfHas(x, None, locals, act, env, ops, parse)
    decreases x, 0
  {
    if x.Select? {
      RewriteMeans(x.operand, iter, locals, act, env, ops, parse);
    }
  }

  lemma {:induction false} RewriteWhereMeans(e: Expr, iter: string, locals: set<string>, act: Activation, env: Scope,
                                             ops: Ops, parse: Parser)
    requires e.Where?
    requires RewriteNode(e, iter, parse).Some? && InFragment(e, parse) && iter !in PredicateNames(e, parse)
    ensures Eval(RewriteNode(e, iter, parse).value, act, env, ops) == Meaning(e, None, locals, act, env, ops, parse)
    decreases e, 0
  {
    var p, recv := PredicateOf(e.args, parse).value, HostsReceiver(e.target, iter, parse).value;
    ReceiverMeans(e.target, iter, act, env, ops, parse);
    FilterMeans(p, recv, iter, act, env, ops, parse);
  }

  lemma FilterMeans(p: Expr, recv: Expr, iter: string, act: Activation, env: Scope, ops: Ops, parse: Parser)
    requires iter !in NamesOf(p) && !ContainsWhere(p) && MapsAreClosed(p, {})
    ensures var hosts := Elements(Eval(recv, act, env, ops), ops);
            Eval(Compr(Filter, recv, iter, [Qualify(p, iter, {})]), act, env, ops) ==
            if hosts.None? then Err else Aggregate(Filter, hosts.value, [Answers(p, hosts.value, act, env, ops, parse)])
  {
    var hosts := Elements(Eval(recv, act, env, ops), ops);
    if hosts.Some? {
      var body := Qualify(p, iter, {});
      QualifiedAnswers(p, hosts.value, iter, act, env, ops, parse);
      assert EvalBodies([body], iter, hosts.value, act, env, ops) == [Answers(p, hosts.value, act, env, ops, parse)];
    }
  }

  lemma {:induction false} ReceiverMeans(t: Expr, iter: string, act: Activation, env: Scope, ops: Ops, parse: Parser)
    requires HostsReceiver(t, iter, parse).Some? && InFragment(t, parse) && iter !in PredicateNames(t, parse)
    ensures Eval(HostsReceiver(t, iter, parse).value, act, env, ops)
         == ReceiverOf(t, Meaning(t, None, {}, act, env, ops, parse))
    decreases t, 2
  {
    if t.Where? { RewriteMeans(t, iter, {}, act, env, ops, parse); }
  }

  lemma {:induction false} RewriteSeqMeans(es: seq<Expr>, iter: string, locals: set<string>, act: Activation,
                                           env: Scope, ops: Ops, parse: Parser)
    requires RewriteSeq(es, iter, parse).Some? && InFragmentSeq(es, parse) && iter !in PredicateNamesSeq(es, parse)
    ensures EvalSeq(RewriteSeq(es, iter, parse).value, act, env, ops)
      == MeaningSeq(es, None, locals, act, env, ops, parse)
    decreases es, 0
  {
    if es != [] {
      RewriteMeans(es[0], iter, locals, act, env, ops, parse);
      RewriteSeqMeans(es[1..], iter, locals, act, env, ops, parse);
      EvalSeqCons(RewriteNode(es[0], iter, parse).value, RewriteSeq(es[1..], iter, parse).value, act, env, ops);
    }
  }

  lemma {:induction false} RewriteBodiesMean(bodies: seq<Expr>, x: string, xs: seq<Value>, iter: string,
                                             locals: set<string>,
                                             act: Activation, env: Scope, ops: Ops, parse: Parser)
    requires RewriteSeq(bodies, iter, parse).Some? && InFragmentSeq(bodies, parse) &&
      iter !in PredicateNamesSeq(bodies, parse)
    ensures EvalBodies(RewriteSeq(bodies, iter, parse).value, x, xs, act, env, ops)
         == MeaningBodies(bodies, x, xs, None, locals, act, env, ops, parse)
    decreases bodies, 0
  {
    if bodies != [] {
      RewriteEachMeans(bodies[0], x, xs, iter, locals, act, env, ops, parse);
      RewriteBodiesMean(bodies[1..], x, xs, iter, locals, act, env, ops, parse);
      var rest := RewriteSeq(bodies[1..], iter, parse).value;
      assert ([RewriteNode(bodies[0], iter, parse).value] + rest)[1..] == rest;
    }
  }

  lemma {:induction false} RewriteEachMeans(body: Expr, x: string, xs: seq<Value>, iter: string, locals: set<string>,
                                            act: Activation, env: Scope, ops: Ops, parse: Parser)
    requires RewriteNode(body, iter, parse).Some? && InFragment(body, parse) && iter !in PredicateNames(body, parse)
    ensures EvalEach(RewriteNode(body, iter, parse).value, x, xs, act, env, ops)
         == MeaningEach(body, x, xs, None, locals, act, env, ops, parse)
    decreases body, 2, |xs|
  {
    if xs != [] {
      RewriteMeans(body, iter, locals + {x}, act, env[x := xs[0]], ops, parse);
      RewriteEachMeans(body, x, xs[1..], iter, locals, act, env, ops, parse);
    }
  }

  /** The rewrite only takes a where-call over the hosts, so it names them. */
  lemma {:induction false} RewrittenNamesHosts(e: Expr, iter: string, parse: Parser)
    requires e.Where? && RewriteNode(e, iter, parse).Some?
    ensures ContainsHostsAccessor(e)
    decreases e
  {
    if e.target.Where? { RewrittenNamesHosts(e.target, iter, parse); }
  }

  /** Where hosts are not named there is nothing to rewrite. */
  lemma {:induction false} NoAccessorUnchanged(e: Expr, iter: string, parse: Parser)
    requires RewriteNode(e, iter, parse).Some? && !ContainsHostsAccessor(e)
    ensures RewriteNode(e, iter, parse) == Some(e)
    decreases e, 0
  {
    match e
    case Lit(_) =>
    case Ident(_) =>
    case Select(o, _) => NoAccessorUnchanged(o, iter, parse);
    case Index(o, k) => NoAccessorUnchanged(o, iter, parse); NoAccessorUnchanged(k, iter, parse);
    case Has(x) => NoAccessorUnchanged(x, iter, parse);
    case Default(x, y) => NoAccessorUnchanged(x, iter, parse); NoAccessorUnchanged(y, iter, parse);
    case Node(op, kids) => if op != MapOp { NoAccessorUnchangedSeq(kids, iter, parse); }
    case Compr(_, t, _, bodies) => NoAccessorUnchanged(t, iter, parse); NoAccessorUnchangedSeq(bodies, iter, parse);
    case Where(_, _) => RewrittenNamesHosts(e, iter, parse);
  }

  lemma {:induction false} NoAccessorUnchangedSeq(es: seq<Expr>, iter: string, parse: Parser)
    requires RewriteSeq(es, iter, parse).Some? && !ContainsHostsAccessorSeq(es)
    ensures RewriteSeq(es, iter, parse) == Some(es)
    decreases es, 0
  {
    if es != [] {
      NoAccessorUnchanged(es[0], iter, parse);
      NoAccessorUnchangedSeq(es[1..], iter, parse);
      assert es == [es[0]] + es[1..];
    }
  }

  /** The rewritten tree means what was written. Where hosts are not allowed, it is the written tree and
      names no hosts accessor. */
  lemma WhereRewriteIsCorrect(e: Expr, allowHosts: bool, parse: Parser, act: Activation, ops: Ops)
    requires InFragment(e, parse)
    ensures var out := RewriteHostsWhere(e, allowHosts, parse);
            out.Rewritten? ==>
              && Eval(out.tree, act, map[], ops) == Meaning(e, None, {}, act, map[], ops, parse)
              && (!allowHosts ==> out.tree == e && !ContainsHostsAccessor(out.tree))
  {
    var iter := FreeIterVar(e, parse);
    if !ContainsWhere(e) { WherelessNodeUnchanged(e, iter, parse); }
    if RewriteNode(e, iter, parse).Some? {
      RewriteMeans(e, iter, {}, act, map[], ops, parse);
      if !ContainsHostsAccessor(e) { NoAccessorUnchanged(e, iter, parse); }
    }
  }

  /** The accessor is a spelling: indexing for the hosts is not one, and reads them all the same. */
  lemma IndexedHostsAreNoAccessor(e: Expr, soulprint: Value, act: Activation, ops: Ops, parse: Parser)
    requires e == Index(Ident(SOULPRINT), Lit(VStr(HOSTS))) && soulprint.VMap? && act == map[SOULPRINT := soulprint]
    ensures RewriteHostsWhere(e, false, parse) == Rewritten(e)
    ensures Eval(e, act, map[], ops) == SelectOf(Val(soulprint), HOSTS)
  {
  }

  // ---- The filter keeps exactly the hosts -------------------------------------------------

  /** The hosts the predicate answers true about, in their order. */
  function Chosen(hosts: seq<Value>, answers: seq<Outcome>): seq<Value>
    requires |hosts| == |answers|
  {
    if hosts == [] then []
    else (if answers[0] == TRUE then [hosts[0]] else []) + Chosen(hosts[1..], answers[1..])
  }

  /** Every answer is true or false. */
  ghost predicate Decided(answers: seq<Outcome>) {
    forall i :: 0 <= i < |answers| ==> answers[i] == TRUE || answers[i] == FALSE
  }

  lemma FilterKeepsExactly(hosts: seq<Value>, answers: seq<Outcome>)
    requires |hosts| == |answers|
    ensures Aggregate(Filter, hosts, [answers]) == if Decided(answers) then Val(VList(Chosen(hosts, answers))) else Err
  {
    KeepIsExact(hosts, answers);
  }

  /** A compiled where-call yields exactly the hosts its predicate holds for, in order. It errs exactly
      when the receiver is not a collection, or the predicate answers with neither true nor false about
      some host. */
  lemma WhereKeepsExactly(e: Expr, iter: string, act: Activation, env: Scope, ops: Ops, parse: Parser)
    requires e.Where? && RewriteNode(e, iter, parse).Some? && InFragment(e, parse) && iter !in PredicateNames(e, parse)
    ensures PredicateOf(e.args, parse).Some?
    ensures var p := PredicateOf(e.args, parse).value;
            var hosts := Elements(ReceiverOf(e.target, Meaning(e.target, None, {}, act, env, ops, parse)), ops);
            Eval(RewriteNode(e, iter, parse).value, act, env, ops) ==
            if hosts.None? || !Decided(Answers(p, hosts.value, act, env, ops, parse)) then Err
            else Val(VList(Chosen(hosts.value, Answers(p, hosts.value, act, env, ops, parse))))
  {
    RewriteWhereMeans(e, iter, {}, act, env, ops, parse);
    var p := PredicateOf(e.args, parse).value;
    var hosts := Elements(ReceiverOf(e.target, Meaning(e.target, None, {}, act, env, ops, parse)), ops);
    if hosts.Some? { FilterKeepsExactly(hosts.value, Answers(p, hosts.value, act, env, ops, parse)); }
  }

  lemma {:induction false} KeepIsExact(hosts: seq<Value>, answers: seq<Outcome>)
    requires |hosts| == |answers|
    ensures Keep(answers, Outcomes(hosts)) == if Decided(answers) then Some(Chosen(hosts, answers)) else None
  {
    if hosts != [] {
      KeepIsExact(hosts[1..], answers[1..]);
      assert Outcomes(hosts)[1..] == Outcomes(hosts[1..]);
      assert answers == [answers[0]] + answers[1..];
      assert [] + Chosen(hosts[1..], answers[1..]) == Chosen(hosts[1..], answers[1..]);
      assert Decided(answers) <==> (answers[0] == TRUE || answers[0] == FALSE) && Decided(answers[1..]);
    }
  }
}
