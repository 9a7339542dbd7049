/** The seal against `.where`.

    The verdict is taken on the author's text, where a predicate is a string literal and so reads nothing;
    what is evaluated is the rewritten tree, where the predicate's reads stand. The two verdicts are
    compared, and the seal's soundness is stated on what is evaluated.
 */
module SealWhere {
  import opened Cel
  import opened Wrappers
  import opened Reads
  import opened HostsWhere
  import opened Printing
  import opened WhereText
  import opened Seal
  import opened SealDeep
  import opened Names
  import opened Seqs

  // ---- The verdict, node by node --------------------------------------------------------------

  /** Not sealed, said of what a tree reads. */
  ghost predicate Clear(root: string, e: Expr, s: Sources) {
    ReadsNoSecret(e, s) && CallCount(VAULT, e) == 0 && (AnyField(s, root) ==> Accounted(root, e))
  }

  ghost predicate ClearSeq(root: string, es: seq<Expr>, s: Sources) {
    ReadsNoSecretSeq(es, s) && CallCountSeq(VAULT, es) == 0 && (AnyField(s, root) ==> AccountedSeq(root, es))
  }

  predicate ClearName(root: string, n: string, s: Sources) {
    n !in s.roots && (n == root ==> !AnyField(s, root))
  }

  lemma ClearExactly(root: string, e: Expr, s: Sources)
    requires root == VARS
    ensures Clear(root, e, s) <==> !Sealed(e, s)
  {
    WholeIsUnaccounted(root, e);
    if Clear(root, e, s) {
      ClearUnsealed(e, s);
    } else if !Sealed(e, s) {
      UnsealedReadsNoSecret(e, s);
      UnsealedNotWhole(e, s);
    }
  }

  lemma UnsealedNotWhole(e: Expr, s: Sources)
    requires !Sealed(e, s)
    ensures !(ReadsOf(VARS, e).whole && AnyField(s, VARS))
  {
  }

  lemma WholeIsUnaccounted(root: string, e: Expr)
    requires root == VARS
    ensures ReadsOf(root, e).whole <==> !Accounted(root, e)
  {
    WholeIsExact(root, e);
  }

  lemma ClearUnsealed(e: Expr, s: Sources)
    requires ReadsNoSecret(e, s) && CallCount(VAULT, e) == 0 && !(ReadsOf(VARS, e).whole && AnyField(s, VARS))
    ensures !Sealed(e, s)
  {
  }

  lemma ClearSelect(root: string, e: Expr, s: Sources)
    requires root == VARS && e.Select? && !e.operand.Ident?
    ensures Clear(root, e, s) <==> Clear(root, e.operand, s) && BaseClear(e, s)
  {
    SelectNames(root, e);
    SelectAddrs(e, s);
  }

  lemma SelectNames(root: string, e: Expr)
    requires e.Select? && !e.operand.Ident?
    ensures Idents(e) == Idents(e.operand) && CallCount(VAULT, e) == CallCount(VAULT, e.operand)
    ensures Accounted(root, e) <==> Accounted(root, e.operand)
  {
  }

  lemma SelectAddrs(e: Expr, s: Sources)
    requires e.Select?
    ensures CleanAddrs(Addrs(e), s) <==> CleanAddrs(Addrs(e.operand), s) && BaseClear(e, s)
  {
    var o, base := e.operand, SelectBase(e.operand);
    if base.Some? {
      assert Addrs(e) == Addrs(o) + {(base.value, e.field)};
      assert (base.value, e.field) in Addrs(e);
    } else {
      assert Addrs(e) == Addrs(o);
    }
  }

  predicate BaseClear(e: Expr, s: Sources)
    requires e.Select?
  {
    var base := SelectBase(e.operand);
    base.Some? ==> !ReadsSecretAddr(base.value, e.field, s)
  }

  lemma ClearField(root: string, n: string, f: string, s: Sources)
    requires root == VARS && n != root
    ensures Clear(root, Select(Ident(n), f), s) <==> n !in s.roots && !ReadsSecretAddr(n, f, s)
  {
    var o, e := Ident(n), Select(Ident(n), f);
    assert Idents(e) == {n} && Addrs(e) == Addrs(o) + {(n, f)} && (n, f) in Addrs(e) && n in Idents(e);
    assert Accounted(root, e) <==> Accounted(root, o);
    assert Addrs(o) == {} && Accounted(root, o) && CallCount(VAULT, e) == CallCount(VAULT, o) == 0;
  }

  lemma ClearPair(root: string, e: Expr, x: Expr, y: Expr, s: Sources)
    requires root == VARS && ((e == Index(x, y) && !IsVarsLiteralIndex(e)) || e == Default(x, y))
    ensures Clear(root, e, s) <==> Clear(root, x, s) && Clear(root, y, s)
  {
    assert Idents(e) == Idents(x) + Idents(y) && Addrs(e) == Addrs(x) + Addrs(y);
  }

  lemma ClearCons(root: string, e: Expr, es: seq<Expr>, s: Sources)
    requires root == VARS
    ensures ClearSeq(root, [e] + es, s) <==> Clear(root, e, s) && ClearSeq(root, es, s)
  {
    TailOf(e, es);
    assert IdentsSeq([e] + es) == Idents(e) + IdentsSeq(es) && AddrsSeq([e] + es) == Addrs(e) + AddrsSeq(es);
  }

  lemma ClearOne(root: string, e: Expr, s: Sources)
    requires root == VARS
    ensures ClearSeq(root, [e], s) <==> Clear(root, e, s)
  {
    var none: seq<Expr> := [];
    NothingAfter([e]);
    ClearCons(root, e, none, s);
    assert IdentsSeq(none) == {} && AddrsSeq(none) == {} && ClearSeq(root, none, s);
  }

  lemma ClearCompr(root: string, macro: Macro, t: Expr, x: string, bodies: seq<Expr>, s: Sources)
    requires root == VARS
    ensures Clear(root, Compr(macro, t, x, bodies), s) <==>
      Clear(root, t, s) && ClearName(root, x, s) && ClearSeq(root, bodies, s)
  {
    var e := Compr(macro, t, x, bodies);
    assert Idents(e) == Idents(t) + {x} + IdentsSeq(bodies) && Addrs(e) == Addrs(t) + AddrsSeq(bodies);
    assert x in Idents(e);
  }

  lemma ClearCall(root: string, op: Op, kids: seq<Expr>, s: Sources)
    requires root == VARS
    ensures Clear(root, Node(op, kids), s) <==> ClearSeq(root, kids, s) && !(op.Call? && op.fn in VAULT)
  {
  }

  lemma LiteralClear(root: string, args: seq<Expr>)
    requires root == VARS && |args| == 1 && args[0].Lit?
    ensures IdentsSeq(args) == {} && AddrsSeq(args) == {} && CallCountSeq(VAULT, args) == 0 && AccountedSeq(root, args)
  {
    var none: seq<Expr> := [];
    assert args[1..] == none && IdentsSeq(none) == {} && AddrsSeq(none) == {} && AccountedSeq(root, none);
    assert CallCountSeq(VAULT, none) == 0;
  }

  /** A where-call reads its receiver: the predicate is a literal. */
  lemma ClearWhere(root: string, t: Expr, args: seq<Expr>, s: Sources)
    requires root == VARS && |args| == 1 && args[0].Lit?
    ensures Clear(root, Where(t, args), s) <==> Clear(root, t, s)
  {
    LiteralClear(root, args);
    assert Idents(Where(t, args)) == Idents(t) && Addrs(Where(t, args)) == Addrs(t);
  }

  // ---- What the rewrite adds ------------------------------------------------------------------

  /** The list filtered or the filter's variable is a secret source. */
  predicate HostsAreSecret(iter: string, s: Sources) {
    ReadsSecretAddr(SOULPRINT, HOSTS, s) || !ClearName(VARS, iter, s)
  }

  /** The predicates whose filter is not sealed: the names in them read as the filter reads them. */
  function FilterUnsealed(iter: string, s: Sources): Expr -> bool {
    p => !HostsAreSecret(iter, s) && !Sealed(Qualify(p, iter, {}), s)
  }

  lemma FilterClear(root: string, p: Expr, iter: string, s: Sources, q: Expr)
    requires root == VARS && q == Qualify(p, iter, {})
    ensures FilterUnsealed(iter, s)(p) <==> !HostsAreSecret(iter, s) && Clear(root, q, s)
  {
    ClearExactly(root, q, s);
  }

  /** The rewrite leaves alone what a field is read off. */
  predicate SameShape(e: Expr, t: Expr) {
    && (e.Ident? <==> t.Ident?) && (e.Ident? || e.Lit? ==> t == e) && (t.Lit? ==> e.Lit?)
    && SelectBase(t) == SelectBase(e) && (IsVarsLiteralIndex(e) || IsVarsLiteralIndex(t) ==> t == e)
  }

  lemma {:induction false} RewriteKeepsShape(e: Expr, iter: string, parse: Parser)
    requires RewriteNode(e, iter, parse).Some?
    ensures SameShape(e, RewriteNode(e, iter, parse).value)
    decreases e
  {
    match e
    case Select(o, _) => RewriteKeepsShape(o, iter, parse);
    case Index(o, k) => RewriteKeepsShape(o, iter, parse); RewriteKeepsShape(k, iter, parse);
    case _ =>
  }

  /** The rewritten tree is clear exactly when the text is and so is the filter of every predicate. */
  lemma {:induction false} RewriteClear(root: string, e: Expr, iter: string, parse: Parser, s: Sources)
    requires root == VARS && RewriteNode(e, iter, parse).Some?
    ensures Clear(root, RewriteNode(e, iter, parse).value, s) <==>
      Clear(root, e, s) && Inlines(e, parse, FilterUnsealed(iter, s))
    decreases e, 1
  {
    match e
    case Lit(_) =>
    case Ident(_) =>
    case Select(o, f) => SelectClear(root, o, f, iter, parse, s);
    case Index(_, _) => IndexClear(root, e, iter, parse, s);
    case Has(x) => RewriteClear(root, x, iter, parse, s);
    case Default(x, y) =>
      RewriteClear(root, x, iter, parse, s);
      RewriteClear(root, y, iter, parse, s);
      ClearPair(root, e, x, y, s);
      var t := RewriteNode(e, iter, parse).value;
      ClearPair(root, t, t.arg, t.fallback, s);
    case Node(op, kids) =>
      if op != MapOp {
        RewriteClearSeq(root, kids, iter, parse, s);
        ClearCall(root, op, kids, s);
        ClearCall(root, op, RewriteSeq(kids, iter, parse).value, s);
      }
    case Compr(macro, t, x, bodies) =>
      RewriteClear(root, t, iter, parse, s);
      RewriteClearSeq(root, bodies, iter, parse, s);
      ClearCompr(root, macro, t, x, bodies, s);
      ClearCompr(root, macro, RewriteNode(t, iter, parse).value, x, RewriteSeq(bodies, iter, parse).value, s);
    case Where(_, _) => WhereClear(root, e, iter, parse, s);
  }

  lemma {:induction false} SelectClear(root: string, o: Expr, f: string, iter: string, parse: Parser, s: Sources)
    requires root == VARS && RewriteNode(o, iter, parse).Some?
    ensures Clear(root, Select(RewriteNode(o, iter, parse).value, f), s) <==>
      Clear(root, Select(o, f), s) && Inlines(o, parse, FilterUnsealed(iter, s))
    decreases o, 2
  {
    var o' := RewriteNode(o, iter, parse).value;
    RewriteKeepsShape(o, iter, parse);
    if !o.Ident? {
      RewriteClear(root, o, iter, parse, s);
      ClearSelect(root, Select(o, f), s);
      ClearSelect(root, Select(o', f), s);
    }
  }

  lemma {:induction false} IndexClear(root: string, e: Expr, iter: string, parse: Parser, s: Sources)
    requires root == VARS && e.Index? && RewriteNode(e, iter, parse).Some?
    ensures Clear(root, RewriteNode(e, iter, parse).value, s) <==>
      Clear(root, e, s) && Inlines(e, parse, FilterUnsealed(iter, s))
    decreases e, 0
  {
    var t := RewriteNode(e, iter, parse).value;
    RewriteKeepsShape(e, iter, parse);
    if !IsVarsLiteralIndex(e) {
      RewriteClear(root, e.operand, iter, parse, s);
      RewriteClear(root, e.key, iter, parse, s);
      ClearPair(root, e, e.operand, e.key, s);
      ClearPair(root, t, t.operand, t.key, s);
    }
  }

  lemma {:induction false} RewriteClearSeq(root: string, es: seq<Expr>, iter: string, parse: Parser, s: Sources)
    requires root == VARS && RewriteSeq(es, iter, parse).Some?
    ensures ClearSeq(root, RewriteSeq(es, iter, parse).value, s) <==>
      ClearSeq(root, es, s) && InlinesSeq(es, parse, FilterUnsealed(iter, s))
    decreases es, 0
  {
    if es != [] {
      RewriteClear(root, es[0], iter, parse, s);
      RewriteClearSeq(root, es[1..], iter, parse, s);
      HeadAndTail(es);
      ClearCons(root, es[0], es[1..], s);
      ClearCons(root, RewriteNode(es[0], iter, parse).value, RewriteSeq(es[1..], iter, parse).value, s);
    }
  }

  lemma {:induction false} WhereClear(root: string, e: Expr, iter: string, parse: Parser, s: Sources)
    requires root == VARS && e.Where? && RewriteNode(e, iter, parse).Some?
    ensures Clear(root, RewriteNode(e, iter, parse).value, s) <==>
      Clear(root, e, s) && Inlines(e, parse, FilterUnsealed(iter, s))
    decreases e, 0
  {
    var p, recv := PredicateOf(e.args, parse).value, HostsReceiver(e.target, iter, parse).value;
    var q := Qualify(p, iter, {});
    ClearWhere(root, e.target, e.args, s);
    ClearCompr(root, Filter, recv, iter, [q], s);
    ClearOne(root, q, s);
    FilterClear(root, p, iter, s, q);
    ReceiverClear(root, e.target, recv, iter, parse, s);
  }

  lemma HostsClear(root: string, hosts: Expr, s: Sources)
    requires root == VARS && IsSoulprintHosts(hosts)
    ensures Clear(root, hosts, s) <==> !ReadsSecretAddr(SOULPRINT, HOSTS, s)
  {
    ClearField(root, SOULPRINT, HOSTS, s);
  }

  lemma ShortClear(root: string, t: Expr, s: Sources)
    requires root == VARS && IsIdent(t, SOULPRINT)
    ensures Clear(root, t, s) <==> SOULPRINT !in s.roots
  {
    assert Idents(t) == {SOULPRINT} && Addrs(t) == {} && SOULPRINT in Idents(t);
  }

  lemma PlainReceiver(t: Expr, recv: Expr, iter: string, parse: Parser, good: Expr -> bool)
    requires !t.Where? && HostsReceiver(t, iter, parse) == Some(recv)
    ensures IsSoulprintHosts(recv) && (t == recv || IsIdent(t, SOULPRINT)) && Inlines(t, parse, good)
  {
  }

  lemma PlainReceiverClear(root: string, t: Expr, recv: Expr, s: Sources)
    requires root == VARS && IsSoulprintHosts(recv) && (t == recv || IsIdent(t, SOULPRINT))
    ensures Clear(root, recv, s) <==> Clear(root, t, s) && !ReadsSecretAddr(SOULPRINT, HOSTS, s)
  {
    HostsClear(root, recv, s);
    if IsIdent(t, SOULPRINT) {
      ShortClear(root, t, s);
    }
  }

  lemma CallInlines(root: string, t: Expr, iter: string, parse: Parser, s: Sources)
    requires root == VARS && t.Where? && RewriteNode(t, iter, parse).Some? && Inlines(t, parse, FilterUnsealed(iter, s))
    ensures !ReadsSecretAddr(SOULPRINT, HOSTS, s)
  {
    var p := PredicateOf(t.args, parse).value;
    FilterClear(root, p, iter, s, Qualify(p, iter, {}));
  }

  lemma {:induction false} ReceiverClear(root: string, t: Expr, recv: Expr, iter: string, parse: Parser, s: Sources)
    requires root == VARS && HostsReceiver(t, iter, parse) == Some(recv)
    ensures Clear(root, recv, s) <==>
      Clear(root, t, s) && Inlines(t, parse, FilterUnsealed(iter, s)) && !ReadsSecretAddr(SOULPRINT, HOSTS, s)
    decreases t, 2
  {
    if t.Where? {
      RewriteClear(root, t, iter, parse, s);
      if Inlines(t, parse, FilterUnsealed(iter, s)) { CallInlines(root, t, iter, parse, s); }
    } else {
      PlainReceiver(t, recv, iter, parse, FilterUnsealed(iter, s));
      PlainReceiverClear(root, t, recv, s);
    }
  }

  // ---- The names a predicate reads off the host -------------------------------------------------

  /** The name is no secret source, whole or by field. */
  predicate NoSource(n: string, s: Sources) {
    n !in s.roots && !AnyField(s, n)
  }

  ghost predicate HostNames(names: set<string>, s: Sources) {
    forall n :: n in names ==> n in ROOTS || NoSource(n, s)
  }

  /** No field of the host the predicate names goes by a name that is a secret source. */
  function HostFieldsClear(s: Sources): Expr -> bool {
    p => forall n :: n in Idents(p) ==> n in ROOTS || NoSource(n, s)
  }

  lemma SourceFree(n: string, f: string, s: Sources)
    requires NoSource(n, s)
    ensures !ReadsSecretAddr(n, f, s)
  {
    NothingAfter(n + ".");
    assert FieldAddr(n, "") <= FieldAddr(n, f);
  }

  lemma QualifyKeepsShape(o: Expr, iter: string, bound: set<string>)
    requires !o.Ident? && iter !in ROOTS
    ensures !Qualify(o, iter, bound).Ident? && SelectBase(Qualify(o, iter, bound)) == SelectBase(o)
  {
  }

  /** A bare name and the field of the host it stands for: neither is a secret source. */
  lemma BareClear(root: string, n: string, iter: string, s: Sources)
    requires root == VARS && n !in ROOTS && NoSource(n, s) && iter !in ROOTS && NoSource(iter, s)
    ensures Clear(root, Ident(n), s) && Clear(root, Select(Ident(iter), n), s)
  {
    SourceFree(iter, n, s);
    ClearField(root, iter, n, s);
    var o := Ident(n);
    assert Idents(o) == {n} && Addrs(o) == {} && CallCount(VAULT, o) == 0 && Accounted(root, o);
  }

  lemma BareFieldClear(root: string, n: string, f: string, iter: string, s: Sources)
    requires root == VARS && n !in ROOTS && NoSource(n, s) && iter !in ROOTS && NoSource(iter, s)
    ensures Clear(root, Select(Ident(n), f), s) && Clear(root, Select(Select(Ident(iter), n), f), s)
  {
    SourceFree(n, f, s);
    ClearField(root, n, f, s);
    BareClear(root, n, iter, s);
    var o := Select(Ident(iter), n);
    ClearSelect(root, Select(o, f), s);
    assert SelectBase(o) == None;
  }

  /** Read off the host, a predicate is sealed exactly when it is as written. */
  lemma {:induction false} QualifyClear(root: string, p: Expr, iter: string, bound: set<string>, s: Sources)
    requires root == VARS && iter !in ROOTS && NoSource(iter, s) && HostNames(Idents(p), s)
    ensures Clear(root, Qualify(p, iter, bound), s) <==> Clear(root, p, s)
    decreases p, 1
  {
    match p
    case Lit(_) =>
    case Ident(n) => if n != iter && IsBare(n, bound) { assert n in Idents(p); BareClear(root, n, iter, s); }
    case Select(o, f) => QualifySelectClear(root, o, f, iter, bound, s);
    case Index(_, _) => QualifyIndexClear(root, p, iter, bound, s);
    case Has(x) => QualifyClear(root, x, iter, bound, s);
    case Default(x, y) =>
      QualifyClear(root, x, iter, bound, s);
      QualifyClear(root, y, iter, bound, s);
      ClearPair(root, p, x, y, s);
      ClearPair(root, Qualify(p, iter, bound), Qualify(x, iter, bound), Qualify(y, iter, bound), s);
    case Node(op, kids) =>
      if op != MapOp {
        QualifyClearSeq(root, kids, iter, bound, s);
        ClearCall(root, op, kids, s);
        ClearCall(root, op, QualifySeq(kids, iter, bound), s);
      }
    case Compr(macro, t, x, bodies) =>
      QualifyClear(root, t, iter, bound, s);
      QualifyClearSeq(root, bodies, iter, bound + {x}, s);
      ClearCompr(root, macro, t, x, bodies, s);
      ClearCompr(root, macro, Qualify(t, iter, bound), x, QualifySeq(bodies, iter, bound + {x}), s);
    case Where(_, _) =>
  }

  lemma {:induction false} QualifySelectClear(root: string, o: Expr, f: string, iter: string, bound: set<string>,
                                              s: Sources)
    requires root == VARS && iter !in ROOTS && NoSource(iter, s) && HostNames(Idents(o), s)
    ensures Clear(root, Select(Qualify(o, iter, bound), f), s) <==> Clear(root, Select(o, f), s)
    decreases o, 2
  {
    if o.Ident? {
      if o.name != iter && IsBare(o.name, bound) {
        assert o.name in Idents(o);
        BareFieldClear(root, o.name, f, iter, s);
      }
    } else {
      QualifyClear(root, o, iter, bound, s);
      QualifyKeepsShape(o, iter, bound);
      ClearSelect(root, Select(o, f), s);
      ClearSelect(root, Select(Qualify(o, iter, bound), f), s);
    }
  }

  lemma VarsIndexKept(p: Expr, iter: string, bound: set<string>)
    requires IsVarsLiteralIndex(p)
    ensures Qualify(p, iter, bound) == p
  {
    ClosedIsUnqualified(p.operand, iter, bound);
    ClosedIsUnqualified(p.key, iter, bound);
  }

  lemma IndexStaysOther(p: Expr, iter: string, bound: set<string>)
    requires p.Index? && !IsVarsLiteralIndex(p) && iter !in ROOTS
    ensures var q := Qualify(p, iter, bound);
      && q.Index? && !IsVarsLiteralIndex(q)
      && q.operand == Qualify(p.operand, iter, bound) && q.key == Qualify(p.key, iter, bound)
  {
  }

  lemma SameIndexClear(root: string, p: Expr, q: Expr, s: Sources)
    requires root == VARS && p.Index? && q.Index? && !IsVarsLiteralIndex(p) && !IsVarsLiteralIndex(q)
    requires Clear(root, p.operand, s) <==> Clear(root, q.operand, s)
    requires Clear(root, p.key, s) <==> Clear(root, q.key, s)
    ensures Clear(root, p, s) <==> Clear(root, q, s)
  {
    ClearPair(root, p, p.operand, p.key, s);
    ClearPair(root, q, q.operand, q.key, s);
  }

  lemma {:induction false} QualifyIndexClear(root: string, p: Expr, iter: string, bound: set<string>, s: Sources)
    requires p.Index?
    requires root == VARS && iter !in ROOTS && NoSource(iter, s) && HostNames(Idents(p), s)
    ensures Clear(root, Qualify(p, iter, bound), s) <==> Clear(root, p, s)
    decreases p, 0
  {
    var q := Qualify(p, iter, bound);
    if IsVarsLiteralIndex(p) {
      VarsIndexKept(p, iter, bound);
    } else {
      QualifyClear(root, p.operand, iter, bound, s);
      QualifyClear(root, p.key, iter, bound, s);
      IndexStaysOther(p, iter, bound);
      SameIndexClear(root, p, q, s);
    }
  }

  lemma {:induction false} QualifyClearSeq(root: string, es: seq<Expr>, iter: string, bound: set<string>, s: Sources)
    requires root == VARS && iter !in ROOTS && NoSource(iter, s) && HostNames(IdentsSeq(es), s)
    ensures ClearSeq(root, QualifySeq(es, iter, bound), s) <==> ClearSeq(root, es, s)
    decreases es, 0
  {
    if es != [] {
      QualifyClear(root, es[0], iter, bound, s);
      QualifyClearSeq(root, es[1..], iter, bound, s);
      HeadAndTail(es);
      ClearCons(root, es[0], es[1..], s);
      ClearCons(root, Qualify(es[0], iter, bound), QualifySeq(es[1..], iter, bound), s);
    }
  }

  // ---- When the two verdicts agree --------------------------------------------------------------

  lemma WhereUnsealed(e: Expr, allowHosts: bool, parse: Parser, s: Sources)
    ensures var out, iter := RewriteHostsWhere(e, allowHosts, parse), FreeIterVar(e, parse);
      out.Rewritten? ==> (!Sealed(out.tree, s) <==> !Sealed(e, s) && Inlines(e, parse, FilterUnsealed(iter, s)))
  {
    var out, iter := RewriteHostsWhere(e, allowHosts, parse), FreeIterVar(e, parse);
    if out.Rewritten? {
      if !ContainsWhere(e) { WherelessNodeUnchanged(e, iter, parse); }
      RewriteClear(VARS, e, iter, parse, s);
      ClearExactly(VARS, e, s);
      ClearExactly(VARS, out.tree, s);
    }
  }

  /** The rewrite never unseals, and the two verdicts agree if and only if the text is sealed or the filter
      of no predicate in it is. */
  lemma VerdictsAgreeExactly(e: Expr, allowHosts: bool, parse: Parser, s: Sources)
    ensures var out, iter := RewriteHostsWhere(e, allowHosts, parse), FreeIterVar(e, parse);
      out.Rewritten? ==>
        && (Sealed(e, s) ==> Sealed(out.tree, s))
        && ((Sealed(e, s) <==> Sealed(out.tree, s)) <==> Sealed(e, s) || Inlines(e, parse, FilterUnsealed(iter, s)))
  {
    WhereUnsealed(e, allowHosts, parse, s);
  }

  /** The predicates that are not sealed as written, over hosts that are no secret source. */
  function PredicateUnsealed(s: Sources): Expr -> bool {
    p => !ReadsSecretAddr(SOULPRINT, HOSTS, s) && !Sealed(p, s)
  }

  lemma NoRootStartsLikeIt(x: string)
    requires HOST_PREFIX <= x
    ensures x !in ROOTS
  {
    assert x[0] == '_';
  }

  lemma IterVarIsNoRoot(e: Expr, parse: Parser)
    ensures FreeIterVar(e, parse) !in ROOTS
  {
    var used := NamesOf(e) + PredicateNames(e, parse);
    var x := FreeIterVar(e, parse);
    if HOST_PREFIX in used { var i: nat :| x == Candidate(HOST_PREFIX, i); }
    NoRootStartsLikeIt(x);
  }

  lemma {:induction false} InlinesSame(e: Expr, parse: Parser, g: Expr -> bool, h: Expr -> bool, on: Expr -> bool)
    requires Inlines(e, parse, on) && forall p :: on(p) ==> (g(p) <==> h(p))
    ensures Inlines(e, parse, g) <==> Inlines(e, parse, h)
    decreases e, 0
  {
    match e
    case Lit(_) =>
    case Ident(_) =>
    case Select(o, _) => InlinesSame(o, parse, g, h, on);
    case Index(o, k) => InlinesSame(o, parse, g, h, on); InlinesSame(k, parse, g, h, on);
    case Has(x) => InlinesSame(x, parse, g, h, on);
    case Default(x, y) => InlinesSame(x, parse, g, h, on); InlinesSame(y, parse, g, h, on);
    case Node(op, kids) => if op != MapOp { InlinesSameSeq(kids, parse, g, h, on); }
    case Compr(_, t, _, bodies) => InlinesSame(t, parse, g, h, on); InlinesSameSeq(bodies, parse, g, h, on);
    case Where(t, _) => InlinesSame(t, parse, g, h, on);
  }

  lemma {:induction false} InlinesSameSeq(es: seq<Expr>, parse: Parser, g: Expr -> bool, h: Expr -> bool,
                                          on: Expr -> bool)
    requires InlinesSeq(es, parse, on) && forall p :: on(p) ==> (g(p) <==> h(p))
    ensures InlinesSeq(es, parse, g) <==> InlinesSeq(es, parse, h)
    decreases es, 0
  {
    if es != [] {
      InlinesSame(es[0], parse, g, h, on);
      InlinesSameSeq(es[1..], parse, g, h, on);
    }
  }

  lemma PredicateSame(p: Expr, iter: string, s: Sources)
    requires iter !in ROOTS && NoSource(iter, s) && HostFieldsClear(s)(p)
    ensures FilterUnsealed(iter, s)(p) <==> PredicateUnsealed(s)(p)
  {
    QualifyClear(VARS, p, iter, {}, s);
    FilterClear(VARS, p, iter, s, Qualify(p, iter, {}));
    ClearExactly(VARS, p, s);
    VarIsClear(iter, s);
  }

  lemma VarIsClear(iter: string, s: Sources)
    requires iter !in ROOTS && NoSource(iter, s)
    ensures HostsAreSecret(iter, s) <==> ReadsSecretAddr(SOULPRINT, HOSTS, s)
  {
  }

  /** Where hosts' fields and the filter's variable go by names that are no secret sources, the two
      verdicts agree if and only if the text is sealed or no predicate in it is. */
  lemma AgreesUnlessPredicateSealed(e: Expr, allowHosts: bool, parse: Parser, s: Sources)
    requires NoSource(FreeIterVar(e, parse), s) && Inlines(e, parse, HostFieldsClear(s))
    ensures var out := RewriteHostsWhere(e, allowHosts, parse);
      out.Rewritten? ==>
        ((Sealed(e, s) <==> Sealed(out.tree, s)) <==> Sealed(e, s) || Inlines(e, parse, PredicateUnsealed(s)))
  {
    var iter := FreeIterVar(e, parse);
    IterVarIsNoRoot(e, parse);
    forall p | HostFieldsClear(s)(p) ensures FilterUnsealed(iter, s)(p) <==> PredicateUnsealed(s)(p) {
      PredicateSame(p, iter, s);
    }
    InlinesSame(e, parse, FilterUnsealed(iter, s), PredicateUnsealed(s), HostFieldsClear(s));
    VerdictsAgreeExactly(e, allowHosts, parse, s);
  }

  // ---- Soundness of what is evaluated -----------------------------------------------------------

  /** Text that is not sealed, with no filter in it sealed, means the same under any two activations that
      differ only in secrets, on a root other than `vars` where each read in the compiled tree names a field. */
  lemma CompiledIsSecretFree(e: Expr, allowHosts: bool, parse: Parser, s: Sources, roots: set<string>,
                             a: Activation, b: Activation, p: Ops, q: Ops)
    requires !Sealed(e, s) && Inlines(e, parse, FilterUnsealed(FreeIterVar(e, parse), s))
    requires InFragment(e, parse) && SameOps(VAULT, p, q) && DifferInDeepSecrets(roots, s, a, b)
    requires RewriteHostsWhere(e, allowHosts, parse).Rewritten?
    requires forall n :: n in roots ==> ReadByName(n, RewriteHostsWhere(e, allowHosts, parse).tree)
    ensures Meaning(e, None, {}, a, map[], p, parse) == Meaning(e, None, {}, b, map[], q, parse)
  {
    var out := RewriteHostsWhere(e, allowHosts, parse).tree;
    WhereUnsealed(e, allowHosts, parse, s);
    UnsealedByNameIsSecretFree(out, s, roots, a, b, map[], p, q);
    WhereRewriteIsCorrect(e, allowHosts, parse, a, p);
    WhereRewriteIsCorrect(e, allowHosts, parse, b, q);
  }

  // ---- A secret the verdict does not see --------------------------------------------------------

  /** `soulprint.hosts.where("vars.<f>")` is not sealed, though the tainted `vars.<f>` picks the hosts. */
  lemma PredicateSecretUnseen(f: string, text: string, parse: Parser, e: Expr, iter: string, s: Sources,
                              host: Value, a: Activation, b: Activation, ops: Ops)
    requires parse(text) == Some(Select(Ident(VARS), f)) && e == Where(HostsExpr(), [Lit(VStr(text))])
    requires iter == FreeIterVar(e, parse) && s == Sources({FieldAddr(VARS, f)}, {})
    requires a == map[SOULPRINT := VMap(map[KStr(HOSTS) := VList([host])]), VARS := VMap(map[KStr(f) := VBool(true)])]
    requires b == a[VARS := VMap(map[KStr(f) := VBool(false)])]
    ensures !Sealed(e, s) && DifferInSecrets({VARS}, s, a, b)
    ensures RewriteHostsWhere(e, true, parse) == Rewritten(FilterBy(iter, Select(Ident(VARS), f)))
    ensures Eval(FilterBy(iter, Select(Ident(VARS), f)), a, map[], ops) == Val(VList([host]))
    ensures Eval(FilterBy(iter, Select(Ident(VARS), f)), b, map[], ops) == Val(VList([]))
  {
    HostsTextUnsealed(e, s, f);
    assert SameUntainted(VARS, s, a, b);
    VarsPredicate(f, text, parse, e, iter);
    VarsFieldReads(f, iter, host, true, a, ops);
    VarsFieldReads(f, iter, host, false, b, ops);
  }

  lemma HostsTextUnsealed(e: Expr, s: Sources, f: string)
    requires e.Where? && IsSoulprintHosts(e.target) && |e.args| == 1 && e.args[0].Lit?
    requires s == Sources({FieldAddr(VARS, f)}, {})
    ensures !Sealed(e, s)
  {
    assert FieldAddr(VARS, f)[0] == 'v' && FieldAddr(SOULPRINT, HOSTS)[0] == 's';
    HostsClear(VARS, e.target, s);
    ClearWhere(VARS, e.target, e.args, s);
    ClearExactly(VARS, e, s);
  }

  lemma VarsPredicate(f: string, text: string, parse: Parser, e: Expr, iter: string)
    requires parse(text) == Some(Select(Ident(VARS), f)) && e == Where(HostsExpr(), [Lit(VStr(text))])
    requires iter == FreeIterVar(e, parse)
    ensures RewriteHostsWhere(e, true, parse) == Rewritten(FilterBy(iter, Select(Ident(VARS), f)))
  {
    var p := Select(Ident(VARS), f);
    assert !ContainsWhere(p) && Qualify(p, iter, {}) == p;
    var args := [Lit(VStr(text))];
    assert args[0] == Lit(VStr(text)) && PredicateOf(args, parse) == Some(p);
    CallRewrites(e, iter, parse, p);
  }

  lemma VarsFieldReads(f: string, iter: string, host: Value, v: bool, act: Activation, ops: Ops)
    requires iter != VARS && SOULPRINT in act && act[SOULPRINT] == VMap(map[KStr(HOSTS) := VList([host])])
    requires VARS in act && act[VARS] == VMap(map[KStr(f) := VBool(v)])
    ensures Eval(FilterBy(iter, Select(Ident(VARS), f)), act, map[], ops) == Val(VList(if v then [host] else []))
  {
    var env: Scope := map[][iter := host];
    assert Eval(Select(Ident(VARS), f), act, env, ops) == Val(VBool(v));
    assert Eval(HostsExpr(), act, map[], ops) == Val(VList([host]));
    OneHostFilter(Select(Ident(VARS), f), iter, host, act, ops);
  }
}
