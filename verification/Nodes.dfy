/** What stands where in a tree. `under` says which nodes lie directly below one; `Children` is all of them. */
module Nodes {
  import opened Cel
  import opened Seqs

  type Below = Expr -> seq<Expr>

  function Children(e: Expr): seq<Expr> {
    match e
    case Lit(_) => []
    case Ident(_) => []
    case Select(o, _) => [o]
    case Index(o, k) => [o, k]
    case Has(x) => [x]
    case Default(x, y) => [x, y]
    case Node(_, kids) => kids
    case Compr(_, t, _, bodies) => [t] + bodies
    case Where(t, args) => [t] + args
  }

  /** x stands in e, n levels down. */
  ghost predicate StandsAt(under: Below, e: Expr, x: Expr, n: nat)
    decreases n
  {
    if n == 0 then x == e else exists c :: c in under(e) && StandsAt(under, c, x, n - 1)
  }

  ghost predicate Stands(under: Below, e: Expr, x: Expr) {
    exists n: nat :: StandsAt(under, e, x, n)
  }

  lemma StandsBelow(under: Below, e: Expr, x: Expr)
    ensures Stands(under, e, x) <==> x == e || exists c :: c in under(e) && Stands(under, c, x)
  {
    if Stands(under, e, x) {
      var n: nat :| StandsAt(under, e, x, n);
      if n > 0 {
        var c :| c in under(e) && StandsAt(under, c, x, n - 1);
        assert Stands(under, c, x);
      }
    }
    if x == e { assert StandsAt(under, e, x, 0); }
    if c :| c in under(e) && Stands(under, c, x) {
      var n: nat :| StandsAt(under, c, x, n);
      assert StandsAt(under, e, x, n + 1);
    }
  }

  /** Some node of e has the property. */
  ghost predicate Occurs(under: Below, e: Expr, has: Expr -> bool) {
    exists x :: Stands(under, e, x) && has(x)
  }

  ghost predicate OccursIn(under: Below, es: seq<Expr>, has: Expr -> bool) {
    exists c :: c in es && Occurs(under, c, has)
  }

  lemma OccursHere(under: Below, e: Expr, has: Expr -> bool)
    ensures Occurs(under, e, has) <==> has(e) || OccursIn(under, under(e), has)
  {
    StandsBelow(under, e, e);
    if x :| Stands(under, e, x) && has(x) { StandsBelow(under, e, x); }
    if c :| c in under(e) && Occurs(under, c, has) {
      var x :| Stands(under, c, x) && has(x);
      StandsBelow(under, e, x);
    }
  }

  lemma OccursCons(under: Below, e: Expr, es: seq<Expr>, has: Expr -> bool)
    ensures OccursIn(under, [e] + es, has) <==> Occurs(under, e, has) || OccursIn(under, es, has)
  {
    if OccursIn(under, es, has) {
      var c :| c in es && Occurs(under, c, has);
      assert c in [e] + es;
    }
    if Occurs(under, e, has) { assert e in [e] + es; }
  }

  lemma OccursNowhere(under: Below, has: Expr -> bool)
    ensures !OccursIn(under, [], has)
  {
  }

  lemma OccursOnce(under: Below, x: Expr, has: Expr -> bool)
    ensures OccursIn(under, [x], has) <==> Occurs(under, x, has)
  {
    OccursCons(under, x, [], has);
    OccursNowhere(under, has);
    NothingAfter([x]);
  }

  lemma OccursTwice(under: Below, x: Expr, y: Expr, has: Expr -> bool)
    ensures OccursIn(under, [x, y], has) <==> Occurs(under, x, has) || Occurs(under, y, has)
  {
    OccursCons(under, x, [y], has);
    OccursOnce(under, y, has);
    Pair(x, y);
  }

  /** Among the children of a node. */
  lemma ChildrenOccur(under: Below, e: Expr, has: Expr -> bool)
    ensures OccursIn(under, Children(e), has) <==>
      match e
      case Lit(_) => false
      case Ident(_) => false
      case Select(o, _) => Occurs(under, o, has)
      case Index(o, k) => Occurs(under, o, has) || Occurs(under, k, has)
      case Has(x) => Occurs(under, x, has)
      case Default(x, y) => Occurs(under, x, has) || Occurs(under, y, has)
      case Node(_, kids) => OccursIn(under, kids, has)
      case Compr(_, t, _, bodies) => Occurs(under, t, has) || OccursIn(under, bodies, has)
      case Where(t, args) => Occurs(under, t, has) || OccursIn(under, args, has)
  {
    OccursNowhere(under, has);
    match e
    case Lit(_) =>
    case Ident(_) =>
    case Select(o, _) => OccursOnce(under, o, has);
    case Index(o, k) => OccursTwice(under, o, k, has);
    case Has(x) => OccursOnce(under, x, has);
    case Default(x, y) => OccursTwice(under, x, y, has);
    case Node(_, _) =>
    case Compr(_, t, _, bodies) => OccursCons(under, t, bodies, has);
    case Where(t, args) => OccursCons(under, t, args, has);
  }
}
