/** Provenance of secrets: whether a cell's expression reads a secret source. */
module Seal {
  import opened Cel
  import opened Wrappers
  import opened Reads
  import opened Seqs

  /** The functions that read Vault, under the names they have in a tree. */
  const VAULT := {"vault", "__vault_read"}

  /** fields: tainted `<root>.<field>` addresses. roots: bindings tainted whole. */
  datatype Sources = Sources(fields: set<string>, roots: set<string>)

  function FieldAddr(root: string, field: string): string { root + "." + field }

  datatype SealReads = SealReads(addrs: set<(string, string)>, idents: set<string>, vaultCalls: nat, varsWhole: bool)

  // ---- What is collected ------------------------------------------------------------------

  /** Every `<base>.<field>` read, by a select or by a literal index on `vars`. */
  function Addrs(e: Expr): set<(string, string)>
    decreases e, 0
  {
    match e
    case Lit(_) => {}
    case Ident(_) => {}
    case Select(o, f) => Addrs(o) + (if SelectBase(o).Some? then {(SelectBase(o).value, f)} else {})
    case Index(o, k) => Addrs(o) + Addrs(k) + IndexAddr(e)
    case Has(x) => Addrs(x)
    case Default(x, y) => Addrs(x) + Addrs(y)
    case Node(_, kids) => AddrsSeq(kids)
    case Compr(_, t, _, bodies) => Addrs(t) + AddrsSeq(bodies)
    case Where(t, args) => Addrs(t) + AddrsSeq(args)
  }

  function IndexAddr(e: Expr): set<(string, string)> {
    if IsVarsLiteralIndex(e) then {(VARS, e.key.v.s)} else {}
  }

  function AddrsSeq(es: seq<Expr>): set<(string, string)>
    decreases es, 0
  {
    if es == [] then {} else Addrs(es[0]) + AddrsSeq(es[1..])
  }

  /** Every identifier node, a comprehension's declaration of its variable included. */
  function Idents(e: Expr): set<string>
    decreases e, 0
  {
    match e
    case Lit(_) => {}
    case Ident(n) => {n}
    case Select(o, _) => Idents(o)
    case Index(o, k) => Idents(o) + Idents(k)
    case Has(x) => Idents(x)
    case Default(x, y) => Idents(x) + Idents(y)
    case Node(_, kids) => IdentsSeq(kids)
    case Compr(_, t, x, bodies) => Idents(t) + {x} + IdentsSeq(bodies)
    case Where(t, args) => Idents(t) + IdentsSeq(args)
  }

  function IdentsSeq(es: seq<Expr>): set<string>
    decreases es, 0
  {
    if es == [] then {} else Idents(es[0]) + IdentsSeq(es[1..])
  }

  function ExprSealReads(e: Expr): SealReads {
    SealReads(Addrs(e), Idents(e), CallCount(VAULT, e), ReadsOf(VARS, e).whole)
  }

  // ---- The walk ---------------------------------------------------------------------------

  function SetOf<T>(xs: seq<T>): set<T> {
    set x | x in xs
  }

  /** What one visit appends and counts. */
  class SealVisitor {
    const root: string // the root whose reads that name no field are told apart
    var addrs: seq<(string, string)>
    var idents: seq<string>
    var vaultCalls: nat
    var varsIdents: nat
    var varsFields: nat

    constructor (vars: string)
      ensures root == vars
      ensures addrs == [] && idents == [] && vaultCalls == 0 && varsIdents == 0 && varsFields == 0
    {
      root := vars;
      addrs, idents, vaultCalls, varsIdents, varsFields := [], [], 0, 0, 0;
    }

    method OnIdent(n: string)
      modifies this
      ensures addrs == old(addrs) && vaultCalls == old(vaultCalls) && varsFields == old(varsFields)
      ensures SetOf(idents) == SetOf(old(idents)) + {n}
      ensures varsIdents == old(varsIdents) + OneIdent(root, n).idents
    {
      idents := idents + [n];
      if n == root { varsIdents := varsIdents + 1; }
    }

    method OnField(base: Option<string>, f: string)
      modifies this
      ensures idents == old(idents) && vaultCalls == old(vaultCalls) && varsIdents == old(varsIdents)
      ensures SetOf(addrs) == SetOf(old(addrs)) + (if base.Some? then {(base.value, f)} else {})
      ensures varsFields == old(varsFields) + OneField(root, base, f).selects
    {
      if base.Some? {
        if base.value == root { varsFields := varsFields + 1; }
        addrs := addrs + [(base.value, f)];
      }
    }

    /** Children first, then the node itself. */
    method Visit(e: Expr)
      modifies this
      ensures SetOf(addrs) == SetOf(old(addrs)) + Addrs(e) && SetOf(idents) == SetOf(old(idents)) + Idents(e)
      ensures vaultCalls == old(vaultCalls) + CallCount(VAULT, e)
      ensures varsIdents == old(varsIdents) + CountsOf(root, e).idents
      ensures varsFields == old(varsFields) + CountsOf(root, e).selects
      decreases e, 1
    {
      match e
      case Lit(_) =>
      case Ident(n) => OnIdent(n);
      case Select(o, f) =>
        Visit(o);
        OnField(SelectBase(o), f);
      case Index(_, _) => VisitIndex(e);
      case Has(x) => Visit(x);
      case Default(x, y) => Visit(x); Visit(y);
      case Node(op, kids) =>
        VisitSeq(kids);
        if op.Call? && op.fn in VAULT { vaultCalls := vaultCalls + 1; }
      case Compr(_, _, _, _) => VisitCompr(e);
      case Where(t, args) => Visit(t); VisitSeq(args);
    }

    method VisitIndex(e: Expr)
      requires e.Index?
      modifies this
      ensures SetOf(addrs) == SetOf(old(addrs)) + Addrs(e) && SetOf(idents) == SetOf(old(idents)) + Idents(e)
      ensures vaultCalls == old(vaultCalls) + CallCount(VAULT, e)
      ensures varsIdents == old(varsIdents) + CountsOf(root, e).idents
      ensures varsFields == old(varsFields) + CountsOf(root, e).selects
      decreases e, 0
    {
      Visit(e.operand);
      Visit(e.key);
      OnIndex(e);
    }

    method OnIndex(e: Expr)
      modifies this
      ensures idents == old(idents) && vaultCalls == old(vaultCalls) && varsIdents == old(varsIdents)
      ensures SetOf(addrs) == SetOf(old(addrs)) + IndexAddr(e)
      ensures varsFields == old(varsFields) + IndexField(root, e).selects
    {
      if IsVarsLiteralIndex(e) { OnField(Some(VARS), e.key.v.s); }
    }

    method VisitCompr(e: Expr)
      requires e.Compr?
      modifies this
      ensures SetOf(addrs) == SetOf(old(addrs)) + Addrs(e) && SetOf(idents) == SetOf(old(idents)) + Idents(e)
      ensures vaultCalls == old(vaultCalls) + CallCount(VAULT, e)
      ensures varsIdents == old(varsIdents) + CountsOf(root, e).idents
      ensures varsFields == old(varsFields) + CountsOf(root, e).selects
      decreases e, 0
    {
      Visit(e.target);
      OnIdent(e.iter);
      VisitSeq(e.bodies);
    }

    method VisitSeq(es: seq<Expr>)
      modifies this
      ensures SetOf(addrs) == SetOf(old(addrs)) + AddrsSeq(es) && SetOf(idents) == SetOf(old(idents)) + IdentsSeq(es)
      ensures vaultCalls == old(vaultCalls) + CallCountSeq(VAULT, es)
      ensures varsIdents == old(varsIdents) + CountsOfSeq(root, es).idents
      ensures varsFields == old(varsFields) + CountsOfSeq(root, es).selects
      decreases es, 0
    {
      if es != [] {
        Visit(es[0]);
        VisitSeq(es[1..]);
      }
    }
  }

  /** Text that does not parse is reported as reading nothing. */
  method CollectSealReads(text: Source) returns (r: SealReads)
    ensures text.Tree? ==> r == ExprSealReads(text.tree)
    ensures !text.Tree? ==> r == SealReads({}, {}, 0, false)
  {
    if !text.Tree? { return SealReads({}, {}, 0, false); }
    var v := new SealVisitor(VARS);
    v.Visit(text.tree);
    r := SealReads(SetOf(v.addrs), SetOf(v.idents), v.vaultCalls, v.varsIdents > v.varsFields);
  }

  // ---- The verdict ------------------------------------------------------------------------

  predicate ReadsSecretAddr(base: string, field: string, sources: Sources) {
    base in sources.roots || FieldAddr(base, field) in sources.fields
  }

  predicate AnyField(sources: Sources, root: string) {
    exists addr :: addr in sources.fields && FieldAddr(root, "") <= addr
  }

  predicate ReadsSecret(r: SealReads, sources: Sources, withVault: bool) {
    || r.vaultCalls > 1
    || (withVault && r.vaultCalls > 0)
    || (exists n :: n in r.idents && n in sources.roots)
    || (exists a :: a in r.addrs && ReadsSecretAddr(a.0, a.1, sources))
    || (r.varsWhole && AnyField(sources, VARS))
  }

  predicate Sealed(e: Expr, sources: Sources) {
    ReadsSecret(ExprSealReads(e), sources, true)
  }

  /** More sources never unseal a cell: the fixpoint over a task's view can only grow. */
  lemma SealIsMonotone(e: Expr, s: Sources, s': Sources)
    requires s.fields <= s'.fields && s.roots <= s'.roots
    ensures Sealed(e, s) ==> Sealed(e, s')
  {
  }

  // ---- The two walks agree ----------------------------------------------------------------

  lemma {:induction false} FieldsAreAddrs(root: string, e: Expr, f: string)
    requires f in FieldsRead(root, e)
    ensures (root, f) in Addrs(e)
    decreases e, 0
  {
    match e
    case Select(o, _) => if f in FieldsRead(root, o) { FieldsAreAddrs(root, o, f); }
    case Index(o, k) =>
      if f in FieldsRead(root, o) { FieldsAreAddrs(root, o, f); }
      if f in FieldsRead(root, k) { FieldsAreAddrs(root, k, f); }
    case Has(x) => FieldsAreAddrs(root, x, f);
    case Default(x, y) =>
      if f in FieldsRead(root, x) { FieldsAreAddrs(root, x, f); } else { FieldsAreAddrs(root, y, f); }
    case Node(_, kids) => FieldsAreAddrsSeq(root, kids, f);
    case Compr(_, t, _, bodies) =>
      if f in FieldsRead(root, t) { FieldsAreAddrs(root, t, f); } else { FieldsAreAddrsSeq(root, bodies, f); }
    case Where(t, args) =>
      if f in FieldsRead(root, t) { FieldsAreAddrs(root, t, f); } else { FieldsAreAddrsSeq(root, args, f); }
  }

  lemma {:induction false} FieldsAreAddrsSeq(root: string, es: seq<Expr>, f: string)
    requires f in FieldsReadSeq(root, es)
    ensures (root, f) in AddrsSeq(es)
    decreases es, 0
  {
    if f in FieldsRead(root, es[0]) { FieldsAreAddrs(root, es[0], f); } else { FieldsAreAddrsSeq(root, es[1..], f); }
  }

  /** A name no identifier node carries has no occurrence to account for. */
  lemma {:induction false} UnnamedAccounted(n: string, e: Expr)
    requires n !in Idents(e)
    ensures Accounted(n, e)
    decreases e, 0
  {
    match e
    case Lit(_) =>
    case Ident(_) =>
    case Select(o, _) => UnnamedAccounted(n, o);
    case Index(o, k) => UnnamedAccounted(n, o); UnnamedAccounted(n, k);
    case Has(x) => UnnamedAccounted(n, x);
    case Default(x, y) => UnnamedAccounted(n, x); UnnamedAccounted(n, y);
    case Node(_, kids) => UnnamedAccountedSeq(n, kids);
    case Compr(_, t, _, bodies) => UnnamedAccounted(n, t); UnnamedAccountedSeq(n, bodies);
    case Where(t, args) => UnnamedAccounted(n, t); UnnamedAccountedSeq(n, args);
  }

  lemma {:induction false} UnnamedAccountedSeq(n: string, es: seq<Expr>)
    requires n !in IdentsSeq(es)
    ensures AccountedSeq(n, es)
    decreases es, 0
  {
    if es != [] {
      UnnamedAccounted(n, es[0]);
      UnnamedAccountedSeq(n, es[1..]);
    }
  }

  /** A name no identifier node carries is not read at all, by field or whole. */
  lemma {:induction false} UnnamedUnread(n: string, e: Expr)
    requires n !in Idents(e) && n != REGISTER && n != STATE_ROOT
    ensures Accounted(n, e) && FieldsRead(n, e) == {}
    decreases e, 0
  {
    match e
    case Lit(_) =>
    case Ident(_) =>
    case Select(o, _) => UnnamedUnread(n, o);
    case Index(o, k) => UnnamedUnread(n, o); UnnamedUnread(n, k);
    case Has(x) => UnnamedUnread(n, x);
    case Default(x, y) => UnnamedUnread(n, x); UnnamedUnread(n, y);
    case Node(_, kids) => UnnamedUnreadSeq(n, kids);
    case Compr(_, t, _, bodies) => UnnamedUnread(n, t); UnnamedUnreadSeq(n, bodies);
    case Where(t, args) => UnnamedUnread(n, t); UnnamedUnreadSeq(n, args);
  }

  lemma {:induction false} UnnamedUnreadSeq(n: string, es: seq<Expr>)
    requires n !in IdentsSeq(es) && n != REGISTER && n != STATE_ROOT
    ensures AccountedSeq(n, es) && FieldsReadSeq(n, es) == {}
    decreases es, 0
  {
    if es != [] {
      UnnamedUnread(n, es[0]);
      UnnamedUnreadSeq(n, es[1..]);
    }
  }

  // ---- Soundness --------------------------------------------------------------------------

  /** Both bind root to a map, and the maps agree on every key that is not a tainted field of it. */
  ghost predicate SameUntainted(root: string, sources: Sources, a: Activation, b: Activation) {
    && root in a && a[root].VMap? && root in b && b[root].VMap?
    && forall k: Key :: !(k.KStr? && FieldAddr(root, k.ks) in sources.fields) ==>
        (k in a[root].m <==> k in b[root].m) && (k in a[root].m ==> a[root].m[k] == b[root].m[k])
  }

  /** a and b differ only in secrets: bindings tainted whole, and tainted fields of the listed roots. */
  ghost predicate DifferInSecrets(roots: set<string>, sources: Sources, a: Activation, b: Activation) {
    forall n :: n in sources.roots || SameName(n, a, b) || (n in roots && SameUntainted(n, sources, a, b))
  }

  lemma NothingTainted(n: string, sources: Sources, a: Activation, b: Activation)
    requires !AnyField(sources, n) && SameUntainted(n, sources, a, b)
    ensures SameName(n, a, b)
  {
    forall f ensures FieldAddr(n, f) !in sources.fields {
      NothingAfter(n + ".");
      assert FieldAddr(n, "") <= FieldAddr(n, f);
    }
    assert forall k: Key :: k in a[n].m <==> k in b[n].m;
    assert a[n].m == b[n].m;
  }

  lemma TaintedUnread(n: string, e: Expr, sources: Sources, a: Activation, b: Activation)
    requires !Sealed(e, sources) && SameUntainted(n, sources, a, b)
    requires n == VARS || MayNarrow(n, e)
    ensures Indistinct(n, Accounted(n, e), FieldsRead(n, e), a, b)
  {
    if ReadsOf(n, e).whole {
      NothingTainted(n, sources, a, b);
    } else {
      if n != REGISTER && n != STATE_ROOT { WholeIsExact(n, e); }
      forall f | f in FieldsRead(n, e) ensures SelectOf(Val(a[n]), f) == SelectOf(Val(b[n]), f) {
        FieldsAreAddrs(n, e, f);
        assert !ReadsSecretAddr(n, f, sources);
        var k := KStr(f);
        assert !(k.KStr? && FieldAddr(n, k.ks) in sources.fields);
      }
    }
  }

  /** A binding tainted whole is not read by an expression that is not sealed. */
  lemma TaintedRootUnread(n: string, e: Expr, sources: Sources)
    requires !Sealed(e, sources) && n in sources.roots
    ensures Accounted(n, e) && FieldsRead(n, e) == {}
  {
    assert n !in Idents(e);
    UnnamedAccounted(n, e);
    forall f ensures f !in FieldsRead(n, e) {
      if f in FieldsRead(n, e) {
        FieldsAreAddrs(n, e, f);
        assert ReadsSecretAddr(n, f, sources);
      }
    }
  }

  /** A tree judged not sealed has one value under any two activations that differ only in secrets,
      whatever Vault answers: on `vars` however it is read, and on every other per-field root named in
      roots when each read of it names a field. The tree is the one evaluated: of a text with
      where-calls, the compiled one. */
  lemma UnsealedIsSecretFree(e: Expr, sources: Sources, roots: set<string>, a: Activation, b: Activation,
                             env: Scope, p: Ops, q: Ops)
    requires !Sealed(e, sources)
    requires forall n :: n in roots && n != VARS ==> MayNarrow(n, e)
    requires DifferInSecrets(roots, sources, a, b)
    requires SameOps(VAULT, p, q)
    ensures Eval(e, a, env, p) == Eval(e, b, env, q)
  {
    forall n ensures Indistinct(n, Accounted(n, e), FieldsRead(n, e), a, b) {
      if n in sources.roots {
        TaintedRootUnread(n, e, sources);
      } else if !SameName(n, a, b) {
        assert n in roots && SameUntainted(n, sources, a, b);
        TaintedUnread(n, e, sources, a, b);
      }
    }
    ReadsDetermineValue(e, a, b, env, VAULT, p, q);
  }

  /** The condition on the other roots is needed: an index into any of them is not sealed, whatever it
      reads. */
  lemma IndexedRootUnsealed(root: string, key: string, ops: Ops)
    requires root != VARS
    ensures var e, sources := Index(Ident(root), Lit(VStr(key))), Sources({FieldAddr(root, key)}, {});
            !Sealed(e, sources) && exists a: Activation, b: Activation ::
              DifferInSecrets({root}, sources, a, b) && Eval(e, a, map[], ops) != Eval(e, b, map[], ops)
  {
    var o, k := Ident(root), Lit(VStr(key));
    var e, sources := Index(o, k), Sources({FieldAddr(root, key)}, {});
    assert Addrs(e) == {} by { assert Addrs(o) == {} && Addrs(k) == {}; }
    assert CallCount(VAULT, e) == 0 by { assert CallCount(VAULT, o) == 0 && CallCount(VAULT, k) == 0; }
    WholeIsExact(VARS, e);
    assert Accounted(VARS, e) by { assert Accounted(VARS, o) && Accounted(VARS, k); }
    assert !Sealed(e, sources);
    var a: Activation := map[root := VMap(map[KStr(key) := VInt(1)])];
    var b: Activation := map[root := VMap(map[KStr(key) := VInt(2)])];
    assert SameUntainted(root, sources, a, b);
    assert DifferInSecrets({root}, sources, a, b);
    assert Eval(e, a, map[], ops) == SelectOf(Val(a[root]), key) == Val(VInt(1));
    assert Eval(e, b, map[], ops) == SelectOf(Val(b[root]), key) == Val(VInt(2));
  }
}
