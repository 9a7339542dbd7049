/** The `.where` rewrite as text: the rewritten tree is printed, and what compiles is that text.

    Unlike a rendered predicate it is printed without grouping, so it is read back as written only where
    the printer and the parser agree of themselves.
 */
module WhereText {
  import opened Cel
  import opened Wrappers
  import opened Grouping
  import opened HostsWhere
  import opened Printing
  import opened Seqs

  // ---- The rewrite keeps the shape that matters ---------------------------------------------

  /** How a tree prints at its left end, and whether it is a unary call. */
  predicate SameEdge(e: Expr, f: Expr) {
    && (IsUnaryCall(e) <==> IsUnaryCall(f))
    && (NegativeRoot(e) <==> NegativeRoot(f)) && (NumeralRoot(e) <==> NumeralRoot(f))
  }

  /** It comes back from its text unchanged. */
  predicate Survives(e: Expr) {
    Readable(e) && Signless(e)
  }

  lemma {:induction false} QualifyKeepsText(p: Expr, iter: string, bound: set<string>)
    ensures SameEdge(Qualify(p, iter, bound), p)
    ensures Readable(Qualify(p, iter, bound)) <==> Readable(p)
    ensures Signless(Qualify(p, iter, bound)) <==> Signless(p)
    decreases p, 0
  {
    match p
    case Lit(_) =>
    case Ident(_) =>
    case Select(o, _) => QualifyKeepsText(o, iter, bound);
    case Index(o, k) => QualifyKeepsText(o, iter, bound); QualifyKeepsText(k, iter, bound);
    case Has(x) => QualifyKeepsText(x, iter, bound);
    case Default(x, y) => QualifyKeepsText(x, iter, bound); QualifyKeepsText(y, iter, bound);
    case Node(op, kids) => if op != MapOp { QualifyKeepsTextSeq(kids, iter, bound); }
    case Compr(_, t, x, bodies) => QualifyKeepsText(t, iter, bound); QualifyKeepsTextSeq(bodies, iter, bound + {x});
    case Where(_, _) =>
  }

  lemma {:induction false} QualifyKeepsTextSeq(es: seq<Expr>, iter: string, bound: set<string>)
    ensures es != [] ==> SameEdge(QualifySeq(es, iter, bound)[0], es[0])
    ensures ReadableSeq(QualifySeq(es, iter, bound)) <==> ReadableSeq(es)
    ensures SignlessSeq(QualifySeq(es, iter, bound)) <==> SignlessSeq(es)
    decreases es, 0
  {
    if es != [] {
      QualifyKeepsText(es[0], iter, bound);
      QualifyKeepsTextSeq(es[1..], iter, bound);
      TailOf(Qualify(es[0], iter, bound), QualifySeq(es[1..], iter, bound));
    }
  }

  /** Every predicate the rewrite inlines satisfies q. */
  predicate Inlines(e: Expr, parse: Parser, q: Expr -> bool)
    decreases e, 0
  {
    match e
    case Lit(_) => true
    case Ident(_) => true
    case Select(o, _) => Inlines(o, parse, q)
    case Index(o, k) => Inlines(o, parse, q) && Inlines(k, parse, q)
    case Has(x) => Inlines(x, parse, q)
    case Default(x, y) => Inlines(x, parse, q) && Inlines(y, parse, q)
    case Node(op, kids) => op == MapOp || InlinesSeq(kids, parse, q)
    case Compr(_, t, _, bodies) => Inlines(t, parse, q) && InlinesSeq(bodies, parse, q)
    case Where(t, args) =>
      Inlines(t, parse, q) && (PredicateOf(args, parse).Some? ==> q(PredicateOf(args, parse).value))
  }

  predicate InlinesSeq(es: seq<Expr>, parse: Parser, q: Expr -> bool)
    decreases es, 0
  {
    es == [] || (Inlines(es[0], parse, q) && InlinesSeq(es[1..], parse, q))
  }

  /** The rewritten text can be read back exactly when the author's text and every predicate in it can. */
  lemma {:induction false} RewriteKeepsText(e: Expr, iter: string, parse: Parser)
    requires RewriteNode(e, iter, parse).Some?
    ensures var t := RewriteNode(e, iter, parse).value;
      && SameEdge(t, e)
      && (Readable(t) <==> Readable(e) && Inlines(e, parse, Readable))
      && (Signless(t) <==> Signless(e) && Inlines(e, parse, Signless))
    decreases e, 1
  {
    match e
    case Lit(_) =>
    case Ident(_) =>
    case Select(o, _) => RewriteKeepsText(o, iter, parse);
    case Index(o, k) => RewriteKeepsText(o, iter, parse); RewriteKeepsText(k, iter, parse);
    case Has(x) => RewriteKeepsText(x, iter, parse);
    case Default(x, y) => RewriteKeepsText(x, iter, parse); RewriteKeepsText(y, iter, parse);
    case Node(op, kids) => if op != MapOp { RewriteSeqKeepsText(kids, iter, parse); }
    case Compr(_, t, _, bodies) => RewriteKeepsText(t, iter, parse); RewriteSeqKeepsText(bodies, iter, parse);
    case Where(_, _) => WhereKeepsText(e, iter, parse);
  }

  lemma {:induction false} RewriteSeqKeepsText(es: seq<Expr>, iter: string, parse: Parser)
    requires RewriteSeq(es, iter, parse).Some?
    ensures var ts := RewriteSeq(es, iter, parse).value;
      && (es != [] ==> SameEdge(ts[0], es[0]))
      && (ReadableSeq(ts) <==> ReadableSeq(es) && InlinesSeq(es, parse, Readable))
      && (SignlessSeq(ts) <==> SignlessSeq(es) && InlinesSeq(es, parse, Signless))
    decreases es, 0
  {
    if es != [] {
      RewriteKeepsText(es[0], iter, parse);
      RewriteSeqKeepsText(es[1..], iter, parse);
      TailOf(RewriteNode(es[0], iter, parse).value, RewriteSeq(es[1..], iter, parse).value);
    }
  }

  lemma {:induction false} WhereKeepsText(e: Expr, iter: string, parse: Parser)
    requires e.Where? && RewriteNode(e, iter, parse).Some?
    ensures var t := RewriteNode(e, iter, parse).value;
      && SameEdge(t, e)
      && (Readable(t) <==> Readable(e) && Inlines(e, parse, Readable))
      && (Signless(t) <==> Signless(e) && Inlines(e, parse, Signless))
    decreases e, 0
  {
    var p := PredicateOf(e.args, parse).value;
    QualifyKeepsText(p, iter, {});
    if e.target.Where? { RewriteKeepsText(e.target, iter, parse); }
    OneLiteral(e.args);
    OneBodyReads(Qualify(p, iter, {}));
  }

  lemma OneLiteral(args: seq<Expr>)
    requires |args| == 1 && args[0].Lit?
    ensures ReadableSeq(args) && SignlessSeq(args)
  {
    OneBodyReads(args[0]);
    assert args == [args[0]];
  }

  lemma OneBodyReads(q: Expr)
    ensures (ReadableSeq([q]) <==> Readable(q)) && (SignlessSeq([q]) <==> Signless(q))
  {
    var none: seq<Expr> := [];
    assert [q][1..] == none && ReadableSeq(none) && SignlessSeq(none);
  }

  // ---- What compiles ------------------------------------------------------------------------

  /** What the compiler parses: the author's own text where there is no where-call in it, and otherwise
      the rewritten tree as printed. */
  function CompiledText(e: Expr, out: Expr): Parse<Expr> {
    if ContainsWhere(e) then ParseExpr(Print(out)) else Got(e, [])
  }

  /** The rewritten tree comes back from its text as it was if and only if the author's text and every
      predicate in it would. */
  lemma WhereTextSurvivesExactly(e: Expr, allowHosts: bool, parse: Parser)
    ensures var out := RewriteHostsWhere(e, allowHosts, parse);
      out.Rewritten? && ContainsWhere(e) ==>
        (ParseExpr(Print(out.tree)) == Got(out.tree, []) <==>
          Survives(e) && Inlines(e, parse, Readable) && Inlines(e, parse, Signless))
  {
    var out := RewriteHostsWhere(e, allowHosts, parse);
    if out.Rewritten? && ContainsWhere(e) {
      RewriteKeepsText(e, FreeIterVar(e, parse), parse);
      SurvivesExactly(out.tree);
    }
  }

  /** What compiles means what was written, wherever no sign stands as an operand, in the author's text or
      in a predicate of it. */
  lemma CompiledTextIsCorrect(e: Expr, allowHosts: bool, parse: Parser, act: Activation, ops: Ops)
    requires InFragment(e, parse) && NumbersAreNumbers(ops)
    requires ContainsWhere(e) ==> Readable(e) && Inlines(e, parse, Readable)
    ensures var out := RewriteHostsWhere(e, allowHosts, parse);
      out.Rewritten? ==>
        var read := CompiledText(e, out.tree);
        && read.Got? && read.rest == []
        && Eval(read.value, act, map[], ops) == Meaning(e, None, {}, act, map[], ops, parse)
  {
    var out := RewriteHostsWhere(e, allowHosts, parse);
    WhereRewriteIsCorrect(e, allowHosts, parse, act, ops);
    if out.Rewritten? && ContainsWhere(e) {
      RewriteKeepsText(e, FreeIterVar(e, parse), parse);
      ReadableMeansTheSame(out.tree, act, map[], ops);
    }
  }

  // ---- A predicate that is misread ----------------------------------------------------------

  /** `(!os).n`, asked of every host. */
  function Asked(os: string, n: string): Expr {
    Select(Node(UnaryCall(Not), [Ident(os)]), n)
  }

  function HostsExpr(): Expr {
    Select(Ident(SOULPRINT), HOSTS)
  }

  function FilterBy(iter: string, body: Expr): Expr {
    Compr(Filter, HostsExpr(), iter, [body])
  }

  /** The predicate's text is `(!os).n`; the printed filter reads back as `!(__host.os.n)`. */
  lemma SignSlipsOut(os: string, n: string, iter: string)
    ensures var written := FilterBy(iter, Select(Node(UnaryCall(Not), [Select(Ident(iter), os)]), n));
      var meant := FilterBy(iter, Node(UnaryCall(Not), [Select(Select(Ident(iter), os), n)]));
      ParseExpr(Print(written)) == Got(meant, []) && written != meant
  {
    var host := Select(Ident(iter), os);
    var a, b := Select(Node(UnaryCall(Not), [host]), n), Node(UnaryCall(Not), [Select(host, n)]);
    SamePrint(host, n);
    assert PrintArgs([a]) == Print(a) + [End] && PrintArgs([b]) == Print(b) + [End];
    OneBodyReads(b);
    OneBodyReads(Select(host, n));
    SurvivesExactly(FilterBy(iter, b));
    assert [a][0] != [b][0];
  }

  lemma SamePrint(host: Expr, n: string)
    ensures Print(Select(Node(UnaryCall(Not), [host]), n)) == Print(Node(UnaryCall(Not), [Select(host, n)]))
  {
    Regroup([Sign(Not)], Print(host), [Field(n)]);
  }

  /** The two part over a host whose `os` is a map with that field false: the predicate as written errs,
      the one compiled keeps the host. */
  lemma MisreadKeepsHost(os: string, n: string, iter: string, host: Value, act: Activation, ops: Ops)
    requires host == VMap(map[KStr(os) := VMap(map[KStr(n) := VBool(false)])])
    requires act == map[SOULPRINT := VMap(map[KStr(HOSTS) := VList([host])])] && iter != SOULPRINT
    requires ops.call(UnaryCall(Not), [VMap(map[KStr(n) := VBool(false)])]) == Err
    requires ops.call(UnaryCall(Not), [VBool(false)]) == TRUE
    ensures var written := FilterBy(iter, Select(Node(UnaryCall(Not), [Select(Ident(iter), os)]), n));
      var read := ParseExpr(Print(written));
      Eval(written, act, map[], ops) == Err && read.Got? && Eval(read.value, act, map[], ops) == Val(VList([host]))
  {
    SignSlipsOut(os, n, iter);
    var inner := Select(Ident(iter), os);
    var a, b := Select(Node(UnaryCall(Not), [inner]), n), Node(UnaryCall(Not), [Select(inner, n)]);
    var env: Scope := map[][iter := host];
    NotOf(inner, act, env, ops, VMap(map[KStr(n) := VBool(false)]));
    NotOf(Select(inner, n), act, env, ops, VBool(false));
    assert Eval(a, act, env, ops) == Err && Eval(b, act, env, ops) == TRUE;
    OneHostFilter(a, iter, host, act, ops);
    OneHostFilter(b, iter, host, act, ops);
  }

  lemma NotOf(x: Expr, act: Activation, env: Scope, ops: Ops, v: Value)
    requires Eval(x, act, env, ops) == Val(v)
    ensures Eval(Node(UnaryCall(Not), [x]), act, env, ops) == ops.call(UnaryCall(Not), [v])
  {
    EvalSeqOne(x, act, env, ops);
    NodeEvaluates(UnaryCall(Not), [x], [Val(v)], act, env, ops);
    StrictOne(v);
  }

  lemma OneHostFilter(body: Expr, iter: string, host: Value, act: Activation, ops: Ops)
    requires Eval(HostsExpr(), act, map[], ops) == Val(VList([host]))
    ensures var o := Eval(body, act, map[][iter := host], ops);
      Eval(FilterBy(iter, body), act, map[], ops)
      == if o == TRUE then Val(VList([host])) else if o == FALSE then Val(VList([])) else Err
  {
    var env: Scope := map[];
    var o := Eval(body, act, env[iter := host], ops);
    assert Eval(HostsExpr(), act, env, ops) == Val(VList([host]));
    EvalEachAt(body, iter, [host], act, env, ops);
    assert EvalEach(body, iter, [host], act, env, ops) == [o];
    var none: seq<Expr> := [];
    assert [body][1..] == none && EvalBodies(none, iter, [host], act, env, ops) == [];
    assert EvalBodies([body], iter, [host], act, env, ops) == [[o]];
    ComprEvaluates(Filter, HostsExpr(), iter, [body], [host], act, env, ops);
    FilterKeepsExactly([host], [o]);
    ChosenOne(host, o);
  }

  lemma ChosenOne(host: Value, o: Outcome)
    ensures Chosen([host], [o]) == if o == TRUE then [host] else []
    ensures Decided([o]) <==> o == TRUE || o == FALSE
  {
    var vs: seq<Value>, os: seq<Outcome> := [], [];
    assert [host][1..] == vs && [o][1..] == os && Chosen(vs, os) == [];
    assert [o][0] == o;
  }

  /** And this is what the rewrite makes of that predicate. */
  lemma MisreadIsCompiled(os: string, n: string, text: string, parse: Parser, e: Expr, iter: string)
    requires IsBare(os, {}) && parse(text) == Some(Asked(os, n))
    requires e == Where(HostsExpr(), [Lit(VStr(text))]) && iter == FreeIterVar(e, parse)
    ensures var out := RewriteHostsWhere(e, true, parse);
      && out == Rewritten(FilterBy(iter, Select(Node(UnaryCall(Not), [Select(Ident(iter), os)]), n)))
      && ContainsWhere(e) && ParseExpr(Print(out.tree)) != Got(out.tree, [])
  {
    var p := Asked(os, n);
    PredicateIs(text, parse, p, os, n);
    AskedQualified(os, n, iter, e, parse, text);
    CallRewrites(e, iter, parse, p);
    SignSlipsOut(os, n, iter);
  }

  lemma CallRewrites(e: Expr, iter: string, parse: Parser, p: Expr)
    requires e.Where? && e.target == HostsExpr() && PredicateOf(e.args, parse) == Some(p)
    ensures RewriteNode(e, iter, parse) == Some(FilterBy(iter, Qualify(p, iter, {})))
  {
    assert IsSoulprintHosts(e.target);
    assert HostsReceiver(e.target, iter, parse) == Some(e.target);
  }

  lemma PredicateIs(text: string, parse: Parser, p: Expr, os: string, n: string)
    requires p == Asked(os, n) && parse(text) == Some(p)
    ensures PredicateOf([Lit(VStr(text))], parse) == Some(p)
  {
    var none: seq<Expr> := [];
    var not := Node(UnaryCall(Not), [Ident(os)]);
    assert [Ident(os)][1..] == none && !ContainsWhereSeq(none) && !ContainsWhereSeq([Ident(os)]);
    assert !ContainsWhere(not) && !ContainsWhere(p);
    var args := [Lit(VStr(text))];
    assert args[0] == Lit(VStr(text));
  }

  lemma AskedQualified(os: string, n: string, iter: string, e: Expr, parse: Parser, text: string)
    requires IsBare(os, {}) && parse(text) == Some(Asked(os, n))
    requires e == Where(HostsExpr(), [Lit(VStr(text))]) && iter !in PredicateNames(e, parse)
    ensures Qualify(Asked(os, n), iter, {}) == Select(Node(UnaryCall(Not), [Select(Ident(iter), os)]), n)
  {
    var none: seq<Expr> := [];
    var not := Node(UnaryCall(Not), [Ident(os)]);
    assert [Ident(os)][1..] == none && NamesOfSeq([Ident(os)]) == {os} + NamesOfSeq(none);
    assert os in NamesOf(not) && os in NamesOf(Asked(os, n));
    assert e.args[0] == Lit(VStr(text)) && NamesOf(Asked(os, n)) <= PredicateNames(e, parse);
    assert QualifySeq([Ident(os)], iter, {}) == [Select(Ident(iter), os)] + QualifySeq(none, iter, {});
    assert Qualify(not, iter, {}) == Node(UnaryCall(Not), [Select(Ident(iter), os)]);
  }
}
