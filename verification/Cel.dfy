/** The expression trees the system reads, and what they evaluate to.

    The trees are those of a parse WITHOUT macros: `has(x)`, `default(x, y)`, the comprehension
    macros and `.where(...)` are still calls. The evaluator gives them the meaning the compiler gives
    them once the macros are expanded, after the sections "Logical Operators", "Field Selection" and
    "Macros" of the CEL language definition. An evaluation yields a value or an error, and errors are
    not told apart.

    Everything the theorems do not depend on is a parameter: the strict functions, indexing other
    than by position in a list or by string key in a map, the order in which a map is iterated and
    the identifiers outside the activation (type names) come in through `Ops`, so each theorem holds
    for every choice of them.
 */
module Cel {
  import opened Seqs
  import opened Wrappers

  // ---- Values -----------------------------------------------------------------------------

  datatype Key = KBool(kb: bool) | KInt(ki: int) | KUint(ku: nat) | KStr(ks: string)

  datatype Value =
    | VNull
    | VBool(b: bool)
    | VInt(i: int)
    | VUint(u: nat)
    | VDouble(d: real)
    | VStr(s: string)
    | VList(elems: seq<Value>)
    | VMap(m: map<Key, Value>)
    | VOther(kind: string) // a value CEL has no literal for

  datatype Outcome = Val(v: Value) | Err

  const TRUE := Val(VBool(true))
  const FALSE := Val(VBool(false))

  // ---- The roots of an activation ---------------------------------------------------------

  const INPUT := "input"
  const VARS := "vars"
  const REGISTER := "register"
  const INCARNATION := "incarnation"
  const SOULPRINT := "soulprint"

  // ---- Trees ------------------------------------------------------------------------------

  datatype UnaryOp = Not | Negate

  /** The node kinds every analysis treats alike: by their children, in the same scope. */
  datatype Op =
    | AndOp | OrOp | CondOp
    | DynOp
    | UnaryCall(unary: UnaryOp)
    | Call(fn: string)   // a strict global call, binary operators included
    | Method(fn: string) // a strict member call, its target the first child
    | ListOp
    | MapOp              // keys and values alternate

  datatype Macro = All | Exists | ExistsOne | Filter | Transform

  datatype Expr =
    | Lit(v: Value)
    | Ident(name: string)
    | Select(operand: Expr, field: string)
    | Index(operand: Expr, key: Expr)
    | Has(arg: Expr)
    | Default(arg: Expr, fallback: Expr)
    | Node(op: Op, kids: seq<Expr>)
    | Compr(macro: Macro, target: Expr, iter: string, bodies: seq<Expr>) // target.macro(iter, bodies...)
    | Where(target: Expr, args: seq<Expr>)                               // target.where(args...)

  predicate IsIdent(e: Expr, n: string) { e.Ident? && e.name == n }

  function Dyn(e: Expr): Expr { Node(DynOp, [e]) }
  function Cond(c: Expr, t: Expr, f: Expr): Expr { Node(CondOp, [c, t, f]) }

  // ---- Evaluation -------------------------------------------------------------------------

  type Activation = map<string, Value>
  type Scope = map<string, Value>

  datatype Ops = Ops(
    call: (Op, seq<Value>) -> Outcome,
    index: (Value, Value) -> Outcome,
    keyOrder: map<Key, Value> -> seq<Value>,
    ident: string -> Outcome)

  function SelectOf(o: Outcome, f: string): Outcome {
    if o.Val? && o.v.VMap? && KStr(f) in o.v.m then Val(o.v.m[KStr(f)]) else Err
  }

  function HasOf(o: Outcome, f: string): Outcome {
    if o.Val? && o.v.VMap? then Val(VBool(KStr(f) in o.v.m)) else Err
  }

  function IndexOf(o: Outcome, k: Outcome, ops: Ops): Outcome {
    if o.Err? || k.Err? then Err
    else if o.v.VMap? && k.v.VStr? then SelectOf(o, k.v.s)
    else if o.v.VList? && k.v.VInt? then
      if 0 <= k.v.i < |o.v.elems| then Val(o.v.elems[k.v.i]) else Err
    else ops.index(o.v, k.v)
  }

  /** `&&` needs only the operand that decides it: a false absorbs the other side's error. */
  function AndOf(l: Outcome, r: Outcome): Outcome {
    if l == FALSE || r == FALSE then FALSE else if l == TRUE && r == TRUE then TRUE else Err
  }

  function OrOf(l: Outcome, r: Outcome): Outcome {
    if l == TRUE || r == TRUE then TRUE else if l == FALSE && r == FALSE then FALSE else Err
  }

  function CondOf(c: Outcome, t: Outcome, f: Outcome): Outcome {
    if c == TRUE then t else if c == FALSE then f else Err
  }

  function AllOf(outs: seq<Outcome>): Outcome {
    if outs == [] then TRUE else AndOf(outs[0], AllOf(outs[1..]))
  }

  function AnyOf(outs: seq<Outcome>): Outcome {
    if outs == [] then FALSE else OrOf(outs[0], AnyOf(outs[1..]))
  }

  /** The values, if every outcome is one. */
  function Strict(outs: seq<Outcome>): (r: Option<seq<Value>>)
    ensures r.Some? ==> |r.value| == |outs|
  {
    if outs == [] then Some([])
    else
      var rest := Strict(outs[1..]);
      if outs[0].Val? && rest.Some? then Some([outs[0].v] + rest.value) else None
  }

  /** `p ? accu + [t] : accu` over the elements, with ps[i] as p and ts[i] as t. */
  function Keep(ps: seq<Outcome>, ts: seq<Outcome>): Option<seq<Value>>
    requires |ps| == |ts|
  {
    if ps == [] then Some([])
    else
      var rest := Keep(ps[1..], ts[1..]);
      if rest.None? then None
      else if ps[0] == FALSE then rest
      else if ps[0] == TRUE && ts[0].Val? then Some([ts[0].v] + rest.value)
      else None
  }

  function Outcomes(xs: seq<Value>): (outs: seq<Outcome>)
    ensures |outs| == |xs|
    ensures forall i :: 0 <= i < |xs| ==> outs[i] == Val(xs[i])
  {
    seq(|xs|, i requires 0 <= i < |xs| => Val(xs[i]))
  }

  function ListOf(vs: Option<seq<Value>>): Outcome {
    if vs.Some? then Val(VList(vs.value)) else Err
  }

  /** What a comprehension runs over: a list's elements, or a map's keys in one fixed order. */
  function Elements(o: Outcome, ops: Ops): Option<seq<Value>> {
    if o.Val? && o.v.VList? then Some(o.v.elems)
    else if o.Val? && o.v.VMap? then Some(ops.keyOrder(o.v.m))
    else None
  }

  /** The macro's fold, given what each body yields on each element. */
  function Aggregate(macro: Macro, xs: seq<Value>, outs: seq<seq<Outcome>>): Outcome
    requires forall row :: row in outs ==> |row| == |xs|
  {
    if |outs| == 2 && macro == Transform then ListOf(Keep(outs[0], outs[1]))
    else if |outs| != 1 then Err
    else
      match macro
      case All => AllOf(outs[0])
      case Exists => AnyOf(outs[0])
      case ExistsOne =>
        var kept := Keep(outs[0], Outcomes(xs));
        if kept.Some? then Val(VBool(|kept.value| == 1)) else Err
      case Filter => ListOf(Keep(outs[0], Outcomes(xs)))
      case Transform => ListOf(Strict(outs[0]))
  }

  function KeyOf(v: Value): Option<Key> {
    match v
    case VBool(b) => Some(KBool(b))
    case VInt(i) => Some(KInt(i))
    case VUint(u) => Some(KUint(u))
    case VStr(s) => Some(KStr(s))
    case _ => None
  }

  /** A map literal: a key of another type, or one written twice, is an error. */
  function BuildMap(kvs: seq<Value>): Option<map<Key, Value>> {
    if kvs == [] then Some(map[])
    else if |kvs| == 1 then None
    else
      var k, rest := KeyOf(kvs[0]), BuildMap(kvs[2..]);
      if k.None? || rest.None? || k.value in rest.value then None
      else Some(rest.value[k.value := kvs[1]])
  }

  function Apply(op: Op, outs: seq<Outcome>, ops: Ops): Outcome {
    match op
    case AndOp => if |outs| == 2 then AndOf(outs[0], outs[1]) else Err
    case OrOp => if |outs| == 2 then OrOf(outs[0], outs[1]) else Err
    case CondOp => if |outs| == 3 then CondOf(outs[0], outs[1], outs[2]) else Err
    case DynOp => if |outs| == 1 then outs[0] else Err
    case ListOp => ListOf(Strict(outs))
    case MapOp =>
      var vs := Strict(outs);
      if vs.None? then Err
      else var m := BuildMap(vs.value); if m.Some? then Val(VMap(m.value)) else Err
    case _ =>
      var vs := Strict(outs);
      if vs.Some? then ops.call(op, vs.value) else Err
  }

  function Eval(e: Expr, act: Activation, env: Scope, ops: Ops): Outcome
    decreases e, 0
  {
    match e
    case Lit(v) => Val(v)
    case Ident(n) => if n in env then Val(env[n]) else if n in act then Val(act[n]) else ops.ident(n)
    case Select(o, f) => SelectOf(Eval(o, act, env, ops), f)
    case Index(o, k) => IndexOf(Eval(o, act, env, ops), Eval(k, act, env, ops), ops)
    case Has(x) =>
      if x.Select? then HasOf(Eval(x.operand, act, env, ops), x.field) else Err // has() takes a field
    case Default(x, y) => // has(x) ? x : y for a field, x itself for an identifier
      if x.Ident? then Eval(x, act, env, ops)
      else if x.Select? then
        CondOf(HasOf(Eval(x.operand, act, env, ops), x.field), Eval(x, act, env, ops), Eval(y, act, env, ops))
      else Err
    case Node(op, kids) => Apply(op, EvalSeq(kids, act, env, ops), ops)
    case Compr(macro, t, x, bodies) =>
      var xs := Elements(Eval(t, act, env, ops), ops);
      if xs.None? then Err else Aggregate(macro, xs.value, EvalBodies(bodies, x, xs.value, act, env, ops))
    case Where(_, _) => Err // no such function until it is rewritten
  }

  function EvalSeq(es: seq<Expr>, act: Activation, env: Scope, ops: Ops): (outs: seq<Outcome>)
    ensures |outs| == |es|
    decreases es, 0
  {
    if es == [] then [] else [Eval(es[0], act, env, ops)] + EvalSeq(es[1..], act, env, ops)
  }

  function EvalBodies(bodies: seq<Expr>, x: string, xs: seq<Value>, act: Activation, env: Scope, ops: Ops)
    : (rows: seq<seq<Outcome>>)
    ensures |rows| == |bodies|
    ensures forall row :: row in rows ==> |row| == |xs|
    decreases bodies, 0
  {
    if bodies == [] then []
    else [EvalEach(bodies[0], x, xs, act, env, ops)] + EvalBodies(bodies[1..], x, xs, act, env, ops)
  }

  /** The body once per element, the iteration variable bound to it. */
  function EvalEach(body: Expr, x: string, xs: seq<Value>, act: Activation, env: Scope, ops: Ops): (outs: seq<Outcome>)
    ensures |outs| == |xs|
    decreases body, 1, |xs|
  {
    if xs == [] then []
    else [Eval(body, act, env[x := xs[0]], ops)] + EvalEach(body, x, xs[1..], act, env, ops)
  }

  lemma {:induction false} EvalEachAt(body: Expr, x: string, xs: seq<Value>, act: Activation, env: Scope, ops: Ops)
    ensures forall i :: 0 <= i < |xs| ==>
      EvalEach(body, x, xs, act, env, ops)[i] == Eval(body, act, env[x := xs[i]], ops)
  {
    if xs != [] {
      EvalEachAt(body, x, xs[1..], act, env, ops);
    }
  }

  lemma EvalSeqCons(e: Expr, es: seq<Expr>, act: Activation, env: Scope, ops: Ops)
    ensures EvalSeq([e] + es, act, env, ops) == [Eval(e, act, env, ops)] + EvalSeq(es, act, env, ops)
  {
    assert ([e] + es)[1..] == es;
  }

  lemma NodeEvaluates(op: Op, kids: seq<Expr>, outs: seq<Outcome>, act: Activation, env: Scope, ops: Ops)
    requires EvalSeq(kids, act, env, ops) == outs
    ensures Eval(Node(op, kids), act, env, ops) == Apply(op, outs, ops)
  {
  }

  lemma ComprEvaluates(macro: Macro, t: Expr, x: string, bodies: seq<Expr>, xs: seq<Value>, act: Activation, env: Scope,
                       ops: Ops)
    requires Elements(Eval(t, act, env, ops), ops) == Some(xs)
    ensures Eval(Compr(macro, t, x, bodies), act, env, ops)
      == Aggregate(macro, xs, EvalBodies(bodies, x, xs, act, env, ops))
  {
  }

  lemma EvalSeqOne(e: Expr, act: Activation, env: Scope, ops: Ops)
    ensures EvalSeq([e], act, env, ops) == [Eval(e, act, env, ops)]
  {
    var none: seq<Expr> := [];
    assert [e][1..] == none && EvalSeq(none, act, env, ops) == [];
  }

  lemma EvalSeqThree(a: Expr, b: Expr, c: Expr, act: Activation, env: Scope, ops: Ops)
    ensures EvalSeq([a, b, c], act, env, ops)
      == [Eval(a, act, env, ops), Eval(b, act, env, ops), Eval(c, act, env, ops)]
  {
    EvalSeqOne(c, act, env, ops);
    Pair(b, c);
    EvalSeqCons(b, [c], act, env, ops);
    Pair(Eval(b, act, env, ops), Eval(c, act, env, ops));
    Triple(a, b, c);
    EvalSeqCons(a, [b, c], act, env, ops);
    Triple(Eval(a, act, env, ops), Eval(b, act, env, ops), Eval(c, act, env, ops));
  }

  lemma StrictCons(v: Value, outs: seq<Outcome>)
    ensures Strict(outs).Some? ==> Strict([Val(v)] + outs) == Some([v] + Strict(outs).value)
  {
    assert ([Val(v)] + outs)[1..] == outs;
  }

  lemma StrictOne(v: Value)
    ensures Strict([Val(v)]) == Some([v])
  {
    var none: seq<Outcome> := [];
    assert [Val(v)][1..] == none && Strict(none) == Some([]);
    var vs: seq<Value> := [];
    assert [v] + vs == [v];
  }

  /** Bodies that agree element by element agree as sequences. */
  lemma EvalEachSame(body: Expr, act: Activation, env: Scope, body': Expr, act': Activation, env': Scope,
                     x: string, xs: seq<Value>, ops: Ops)
    requires forall i :: 0 <= i < |xs| ==>
      Eval(body, act, env[x := xs[i]], ops) == Eval(body', act', env'[x := xs[i]], ops)
    ensures EvalEach(body, x, xs, act, env, ops) == EvalEach(body', x, xs, act', env', ops)
  {
    EvalEachAt(body, x, xs, act, env, ops);
    EvalEachAt(body', x, xs, act', env', ops);
  }

  // ---- What the compiler accepts ----------------------------------------------------------

  /** has() takes a field, and default() a field or an identifier: the macros refuse anything else. */
  predicate Compiles(e: Expr)
    decreases e, 0
  {
    match e
    case Lit(_) => true
    case Ident(_) => true
    case Select(o, _) => Compiles(o)
    case Index(o, k) => Compiles(o) && Compiles(k)
    case Has(x) => x.Select? && Compiles(x)
    case Default(x, y) => (x.Select? || x.Ident?) && Compiles(x) && Compiles(y)
    case Node(_, kids) => CompilesSeq(kids)
    case Compr(_, t, _, bodies) => Compiles(t) && CompilesSeq(bodies)
    case Where(t, args) => false
  }

  predicate CompilesSeq(es: seq<Expr>)
    decreases es, 0
  {
    es == [] || (Compiles(es[0]) && CompilesSeq(es[1..]))
  }

  // ---- Identifiers an expression mentions -------------------------------------------------

  /** The identifiers that occur as expressions; a comprehension's own declaration of its variable
      does not count. */
  function Mentions(e: Expr): set<string>
    decreases e, 0
  {
    match e
    case Lit(_) => {}
    case Ident(n) => {n}
    case Select(o, _) => Mentions(o)
    case Index(o, k) => Mentions(o) + Mentions(k)
    case Has(x) => Mentions(x)
    case Default(x, y) => Mentions(x) + Mentions(y)
    case Node(_, kids) => MentionsSeq(kids)
    case Compr(_, t, _, bodies) => Mentions(t) + MentionsSeq(bodies)
    case Where(t, args) => Mentions(t) + MentionsSeq(args)
  }

  function MentionsSeq(es: seq<Expr>): set<string>
    decreases es, 0
  {
    if es == [] then {} else Mentions(es[0]) + MentionsSeq(es[1..])
  }

  /** A binding no identifier of e refers to does not change what e evaluates to. */
  lemma {:induction false} UnmentionedBinding(e: Expr, act: Activation, env: Scope, x: string, v: Value, ops: Ops)
    requires x !in Mentions(e)
    ensures Eval(e, act, env[x := v], ops) == Eval(e, act, env, ops)
    decreases e, 0
  {
    match e
    case Lit(_) =>
    case Ident(_) =>
    case Select(o, _) => UnmentionedBinding(o, act, env, x, v, ops);
    case Index(o, k) =>
      UnmentionedBinding(o, act, env, x, v, ops);
      UnmentionedBinding(k, act, env, x, v, ops);
    case Has(a) =>
      if a.Select? { UnmentionedBinding(a.operand, act, env, x, v, ops); }
    case Default(a, y) =>
      UnmentionedBinding(a, act, env, x, v, ops);
      UnmentionedBinding(y, act, env, x, v, ops);
      if a.Select? { UnmentionedBinding(a.operand, act, env, x, v, ops); }
    case Node(_, kids) => UnmentionedInSeq(kids, act, env, x, v, ops);
    case Compr(_, t, iter, bodies) =>
      UnmentionedBinding(t, act, env, x, v, ops);
      var xs := Elements(Eval(t, act, env, ops), ops);
      if xs.Some? { UnmentionedInBodies(bodies, iter, xs.value, act, env, x, v, ops); }
    case Where(_, _) =>
  }

  lemma {:induction false} UnmentionedInSeq(es: seq<Expr>, act: Activation, env: Scope, x: string, v: Value, ops: Ops)
    requires x !in MentionsSeq(es)
    ensures EvalSeq(es, act, env[x := v], ops) == EvalSeq(es, act, env, ops)
    decreases es, 0
  {
    if es != [] {
      UnmentionedBinding(es[0], act, env, x, v, ops);
      UnmentionedInSeq(es[1..], act, env, x, v, ops);
    }
  }

  lemma {:induction false} UnmentionedInBodies(bodies: seq<Expr>, iter: string, xs: seq<Value>, act: Activation,
                                               env: Scope, x: string, v: Value, ops: Ops)
    requires x !in MentionsSeq(bodies)
    ensures EvalBodies(bodies, iter, xs, act, env[x := v], ops) == EvalBodies(bodies, iter, xs, act, env, ops)
    decreases bodies, 0
  {
    if bodies != [] {
      forall i | 0 <= i < |xs|
        ensures Eval(bodies[0], act, env[x := v][iter := xs[i]], ops) == Eval(bodies[0], act, env[iter := xs[i]], ops)
      {
        if iter == x {
          assert env[x := v][iter := xs[i]] == env[iter := xs[i]];
        } else {
          assert env[x := v][iter := xs[i]] == env[iter := xs[i]][x := v];
          UnmentionedBinding(bodies[0], act, env[iter := xs[i]], x, v, ops);
        }
      }
      EvalEachSame(bodies[0], act, env[x := v], bodies[0], act, env, iter, xs, ops);
      UnmentionedInBodies(bodies[1..], iter, xs, act, env, x, v, ops);
    }
  }
}
