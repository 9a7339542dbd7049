/** `groupForParser`: the tree made printable.

    The printer leaves a unary operand unparenthesized where the parser then reads something else:
    under another unary (an even run of `!` or `-` is dropped) and as the operand of a select, an
    index or a member call (which bind tighter). Wrapping such an operand in dyn(), a call and hence
    a primary, groups it.
 */
module Grouping {
  import opened Cel
  import opened Wrappers

  predicate IsUnaryCall(e: Expr) {
    e.Node? && e.op.UnaryCall? && |e.kids| == 1
  }

  /** A literal printed with a leading `-`. */
  predicate IsNegativeLiteral(e: Expr) {
    e.Lit? && ((e.v.VInt? && e.v.i < 0) || (e.v.VDouble? && e.v.d < 0.0))
  }

  predicate PrintsWithSign(e: Expr) {
    IsUnaryCall(e) || IsNegativeLiteral(e)
  }

  function Grouped(x: Expr): Expr {
    if PrintsWithSign(x) then Dyn(x) else x
  }

  /** The node kinds whose first child must print as a primary. */
  predicate BindsFirst(op: Op, n: nat) {
    n >= 1 && (op.Method? || (op.UnaryCall? && n == 1))
  }

  function GroupForParser(e: Expr): Expr
    decreases e, 0
  {
    match e
    case Lit(_) => e
    case Ident(_) => e
    case Select(o, f) => Select(Grouped(GroupForParser(o)), f)
    case Index(o, k) => Index(Grouped(GroupForParser(o)), GroupForParser(k))
    case Has(x) => Has(GroupForParser(x))
    case Default(x, y) => Default(GroupForParser(x), GroupForParser(y))
    case Node(op, kids) =>
      var out := GroupSeq(kids);
      Node(op, if BindsFirst(op, |kids|) then [Grouped(out[0])] + out[1..] else out)
    case Compr(macro, t, x, bodies) => Compr(macro, Grouped(GroupForParser(t)), x, GroupSeq(bodies))
    case Where(t, args) => Where(Grouped(GroupForParser(t)), GroupSeq(args))
  }

  function GroupSeq(es: seq<Expr>): (out: seq<Expr>)
    ensures |out| == |es|
    decreases es, 0
  {
    if es == [] then [] else [GroupForParser(es[0])] + GroupSeq(es[1..])
  }

  // ---- The normal form --------------------------------------------------------------------

  /** No unary call and no negative literal stands directly under a unary, or as the operand of a
      select, an index or a member call. */
  predicate Printable(e: Expr)
    decreases e, 0
  {
    match e
    case Lit(_) => true
    case Ident(_) => true
    case Select(o, _) => !PrintsWithSign(o) && Printable(o)
    case Index(o, k) => !PrintsWithSign(o) && Printable(o) && Printable(k)
    case Has(x) => Printable(x)
    case Default(x, y) => Printable(x) && Printable(y)
    case Node(op, kids) => (BindsFirst(op, |kids|) ==> !PrintsWithSign(kids[0])) && PrintableSeq(kids)
    case Compr(_, t, _, bodies) => !PrintsWithSign(t) && Printable(t) && PrintableSeq(bodies)
    case Where(t, args) => !PrintsWithSign(t) && Printable(t) && PrintableSeq(args)
  }

  predicate PrintableSeq(es: seq<Expr>)
    decreases es, 0
  {
    es == [] || (Printable(es[0]) && PrintableSeq(es[1..]))
  }

  /** Only what needs it is grouped. */
  lemma {:induction false} PrintableUnchanged(e: Expr)
    requires Printable(e)
    ensures GroupForParser(e) == e
    decreases e, 0
  {
    match e
    case Lit(_) =>
    case Ident(_) =>
    case Select(o, _) => PrintableUnchanged(o);
    case Index(o, k) => PrintableUnchanged(o); PrintableUnchanged(k);
    case Has(x) => PrintableUnchanged(x);
    case Default(x, y) => PrintableUnchanged(x); PrintableUnchanged(y);
    case Node(op, kids) =>
      PrintableUnchangedSeq(kids);
      if BindsFirst(op, |kids|) { assert [kids[0]] + kids[1..] == kids; }
    case Compr(_, t, _, bodies) => PrintableUnchanged(t); PrintableUnchangedSeq(bodies);
    case Where(t, args) => PrintableUnchanged(t); PrintableUnchangedSeq(args);
  }

  lemma {:induction false} PrintableUnchangedSeq(es: seq<Expr>)
    requires PrintableSeq(es)
    ensures GroupSeq(es) == es
    decreases es, 0
  {
    if es != [] {
      PrintableUnchanged(es[0]);
      PrintableUnchangedSeq(es[1..]);
      assert [es[0]] + es[1..] == es;
    }
  }

  lemma GroupedPrintable(x: Expr)
    requires Printable(x)
    ensures Printable(Grouped(x)) && !PrintsWithSign(Grouped(x))
  {
    assert PrintableSeq([x]);
  }

  lemma {:induction false} GroupingIsPrintable(e: Expr)
    ensures Printable(GroupForParser(e))
    decreases e, 0
  {
    match e
    case Lit(_) =>
    case Ident(_) =>
    case Select(o, _) => GroupingIsPrintable(o); GroupedPrintable(GroupForParser(o));
    case Index(o, k) => GroupingIsPrintable(o); GroupedPrintable(GroupForParser(o)); GroupingIsPrintable(k);
    case Has(x) => GroupingIsPrintable(x);
    case Default(x, y) => GroupingIsPrintable(x); GroupingIsPrintable(y);
    case Node(op, kids) =>
      GroupingIsPrintableSeq(kids);
      if BindsFirst(op, |kids|) {
        var out := GroupSeq(kids);
        GroupedPrintable(out[0]);
        assert ([Grouped(out[0])] + out[1..])[1..] == out[1..];
      }
    case Compr(_, t, _, bodies) =>
      GroupingIsPrintable(t); GroupedPrintable(GroupForParser(t)); GroupingIsPrintableSeq(bodies);
    case Where(t, args) =>
      GroupingIsPrintable(t); GroupedPrintable(GroupForParser(t)); GroupingIsPrintableSeq(args);
  }

  lemma {:induction false} GroupingIsPrintableSeq(es: seq<Expr>)
    ensures PrintableSeq(GroupSeq(es))
    decreases es, 0
  {
    if es != [] {
      GroupingIsPrintable(es[0]);
      GroupingIsPrintableSeq(es[1..]);
      assert GroupSeq(es)[1..] == GroupSeq(es[1..]);
    }
  }

  // ---- The meaning is kept ----------------------------------------------------------------

  lemma GroupedSame(x: Expr, act: Activation, env: Scope, ops: Ops)
    ensures Eval(Grouped(x), act, env, ops) == Eval(x, act, env, ops)
  {
    assert EvalSeq([x], act, env, ops) == [Eval(x, act, env, ops)];
  }

  lemma FirstGrouped(out: seq<Expr>, act: Activation, env: Scope, ops: Ops)
    requires out != []
    ensures EvalSeq([Grouped(out[0])] + out[1..], act, env, ops) == EvalSeq(out, act, env, ops)
  {
    GroupedSame(out[0], act, env, ops);
    EvalSeqCons(Grouped(out[0]), out[1..], act, env, ops);
    EvalSeqCons(out[0], out[1..], act, env, ops);
    assert [out[0]] + out[1..] == out;
  }

  lemma {:induction false} GroupingSame(e: Expr, act: Activation, env: Scope, ops: Ops)
    ensures Eval(GroupForParser(e), act, env, ops) == Eval(e, act, env, ops)
    decreases e, 1
  {
    match e
    case Lit(_) =>
    case Ident(_) =>
    case Select(o, _) => GroupingSame(o, act, env, ops); GroupedSame(GroupForParser(o), act, env, ops);
    case Index(o, k) =>
      GroupingSame(o, act, env, ops); GroupedSame(GroupForParser(o), act, env, ops);
      GroupingSame(k, act, env, ops);
    case Has(x) => FieldGroupingSame(x, act, env, ops);
    case Default(x, y) =>
      GroupingSame(x, act, env, ops); GroupingSame(y, act, env, ops);
      FieldGroupingSame(x, act, env, ops);
    case Node(op, kids) =>
      GroupingSameSeq(kids, act, env, ops);
      if BindsFirst(op, |kids|) { FirstGrouped(GroupSeq(kids), act, env, ops); }
    case Compr(_, _, _, _) => ComprGroupingSame(e, act, env, ops);
    case Where(_, _) =>
  }

  /** What has() and default() look into: the operand of a select. */
  lemma {:induction false} FieldGroupingSame(x: Expr, act: Activation, env: Scope, ops: Ops)
    ensures GroupForParser(x).Select? <==> x.Select?
    ensures GroupForParser(x).Ident? <==> x.Ident?
    ensures x.Select? ==> GroupForParser(x).field == x.field
    ensures x.Select? ==> Eval(GroupForParser(x).operand, act, env, ops) == Eval(x.operand, act, env, ops)
    decreases x, 0
  {
    if x.Select? {
      GroupingSame(x.operand, act, env, ops);
      GroupedSame(GroupForParser(x.operand), act, env, ops);
    }
  }

  lemma {:induction false} ComprGroupingSame(e: Expr, act: Activation, env: Scope, ops: Ops)
    requires e.Compr?
    ensures Eval(GroupForParser(e), act, env, ops) == Eval(e, act, env, ops)
    decreases e, 0
  {
    GroupingSame(e.target, act, env, ops);
    GroupedSame(GroupForParser(e.target), act, env, ops);
    var xs := Elements(Eval(e.target, act, env, ops), ops);
    if xs.Some? { GroupingSameBodies(e.bodies, e.iter, xs.value, act, env, ops); }
  }

  lemma {:induction false} GroupingSameSeq(es: seq<Expr>, act: Activation, env: Scope, ops: Ops)
    ensures EvalSeq(GroupSeq(es), act, env, ops) == EvalSeq(es, act, env, ops)
    decreases es, 0
  {
    if es != [] {
      GroupingSame(es[0], act, env, ops);
      GroupingSameSeq(es[1..], act, env, ops);
      EvalSeqCons(GroupForParser(es[0]), GroupSeq(es[1..]), act, env, ops);
    }
  }

  lemma {:induction false} GroupingSameBodies(bodies: seq<Expr>, x: string, xs: seq<Value>, act: Activation, env: Scope,
                                              ops: Ops)
    ensures EvalBodies(GroupSeq(bodies), x, xs, act, env, ops) == EvalBodies(bodies, x, xs, act, env, ops)
    decreases bodies, 0
  {
    if bodies != [] {
      forall i | 0 <= i < |xs|
        ensures Eval(GroupForParser(bodies[0]), act, env[x := xs[i]], ops) == Eval(bodies[0], act, env[x := xs[i]], ops)
      {
        GroupingSame(bodies[0], act, env[x := xs[i]], ops);
      }
      EvalEachSame(GroupForParser(bodies[0]), act, env, bodies[0], act, env, x, xs, ops);
      GroupingSameBodies(bodies[1..], x, xs, act, env, ops);
      assert GroupSeq(bodies)[1..] == GroupSeq(bodies[1..]);
    }
  }
}
