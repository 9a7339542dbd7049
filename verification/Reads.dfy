/** What an expression reads off each root of the activation, found by counting.

    Every `input.f` puts one `input` identifier and one select over it into the tree, so an
    identifier the selects do not account for is a read no field name can be recovered from. The
    counting is proved exact over the whole tree (`CountsAccount`), and one non-interference lemma
    (`ReadsDetermineValue`) turns it into the guarantees the callers rely on: narrowing a root to the
    fields read off it changes nothing (`NarrowingIsSound`).
 */
module Reads {
  import opened Cel
  import opened Wrappers

  const HOSTS_KEY := "hosts"
  const STATE_KEY := "state"
  const STATE_ROOT := "incarnation.state"

  datatype RootReads = RootReads(fields: set<string>, whole: bool)

  // ---- The shapes a field name is recovered from ------------------------------------------

  predicate ReadsKey(e: Expr, root: string, key: string) {
    || (e.Select? && IsIdent(e.operand, root) && e.field == key)
    || (e.Index? && IsIdent(e.operand, root) && e.key.Lit? && e.key.v.VStr? && e.key.v.s == key)
  }

  /** The root and field a select names, if it names one. `register.hosts.<f>` and
      `incarnation.state.<f>` are flattened onto the level their author reads. */
  function SelectBase(operand: Expr): Option<string> {
    if operand.Ident? then Some(operand.name)
    else if ReadsKey(operand, REGISTER, HOSTS_KEY) then Some(REGISTER)
    else if ReadsKey(operand, INCARNATION, STATE_KEY) then Some(STATE_ROOT)
    else None
  }

  /** `vars['k']`: on this root alone a literal index is a field. */
  predicate IsVarsLiteralIndex(e: Expr) {
    e.Index? && IsIdent(e.operand, VARS) && e.key.Lit? && e.key.v.VStr?
  }

  // ---- The counts -------------------------------------------------------------------------

  /** idents: identifier nodes named root, a comprehension's declaration of its variable included.
      selects: nodes that name a field of root. fields: the names. */
  datatype Counts = Counts(idents: nat, selects: nat, fields: set<string>)

  const NOTHING := Counts(0, 0, {})

  function Plus(c: Counts, d: Counts): Counts {
    Counts(c.idents + d.idents, c.selects + d.selects, c.fields + d.fields)
  }

  lemma PlusAssociative(c: Counts, d: Counts, f: Counts)
    ensures Plus(Plus(c, d), f) == Plus(c, Plus(d, f))
  {
    assert c.fields + d.fields + f.fields == c.fields + (d.fields + f.fields);
  }

  lemma PlusNothing()
    ensures forall c :: Plus(c, NOTHING) == c
  {
    forall c ensures Plus(c, NOTHING) == c { assert c.fields + {} == c.fields; }
  }

  function OneIdent(root: string, name: string): Counts {
    if name == root then Counts(1, 0, {}) else NOTHING
  }

  function OneField(root: string, base: Option<string>, field: string): Counts {
    if base == Some(root) then Counts(0, 1, {field}) else NOTHING
  }

  function IndexField(root: string, e: Expr): Counts {
    if IsVarsLiteralIndex(e) then OneField(root, Some(VARS), e.key.v.s) else NOTHING
  }

  function CountsOf(root: string, e: Expr): Counts
    decreases e, 0
  {
    match e
    case Lit(_) => NOTHING
    case Ident(n) => OneIdent(root, n)
    case Select(o, f) => Plus(CountsOf(root, o), OneField(root, SelectBase(o), f))
    case Index(o, k) => Plus(Plus(CountsOf(root, o), CountsOf(root, k)), IndexField(root, e))
    case Has(x) => CountsOf(root, x)
    case Default(x, y) => Plus(CountsOf(root, x), CountsOf(root, y))
    case Node(_, kids) => CountsOfSeq(root, kids)
    case Compr(_, t, x, bodies) => Plus(Plus(CountsOf(root, t), OneIdent(root, x)), CountsOfSeq(root, bodies))
    case Where(t, args) => Plus(CountsOf(root, t), CountsOfSeq(root, args))
  }

  function CountsOfSeq(root: string, es: seq<Expr>): Counts
    decreases es, 0
  {
    if es == [] then NOTHING else Plus(CountsOf(root, es[0]), CountsOfSeq(root, es[1..]))
  }

  function FieldsRead(root: string, e: Expr): set<string> {
    CountsOf(root, e).fields
  }

  function FieldsReadSeq(root: string, es: seq<Expr>): set<string> {
    CountsOfSeq(root, es).fields
  }

  function ReadsOf(root: string, e: Expr): RootReads {
    RootReads(FieldsRead(root, e), CountsOf(root, e).idents > CountsOf(root, e).selects)
  }

  // ---- The walk ---------------------------------------------------------------------------

  /** The text handed in: nothing, text that does not parse, or a tree. */
  datatype Source = NoText | Unparsable | Tree(tree: Expr)

  type Tallies = map<string, Counts>

  /** The counts of one root after a visit that starts from c. */
  function Visited(root: string, e: Expr, c: Counts): Counts
    decreases e, 0
  {
    match e
    case Lit(_) => c
    case Ident(n) => Plus(c, OneIdent(root, n))
    case Select(o, f) => Plus(Visited(root, o, c), OneField(root, SelectBase(o), f))
    case Index(o, k) => Plus(Visited(root, k, Visited(root, o, c)), IndexField(root, e))
    case Has(x) => Visited(root, x, c)
    case Default(x, y) => Visited(root, y, Visited(root, x, c))
    case Node(_, kids) => VisitedSeq(root, kids, c)
    case Compr(_, t, x, bodies) => VisitedSeq(root, bodies, Plus(Visited(root, t, c), OneIdent(root, x)))
    case Where(t, args) => VisitedSeq(root, args, Visited(root, t, c))
  }

  function VisitedSeq(root: string, es: seq<Expr>, c: Counts): Counts
    decreases es, 0
  {
    if es == [] then c else VisitedSeq(root, es[1..], Visited(root, es[0], c))
  }

  lemma {:induction false} VisitAdds(root: string, e: Expr, c: Counts)
    ensures Visited(root, e, c) == Plus(c, CountsOf(root, e))
    decreases e, 0
  {
    match e
    case Lit(_) => PlusNothing();
    case Ident(_) =>
    case Select(o, f) =>
      VisitAdds(root, o, c);
      PlusAssociative(c, CountsOf(root, o), OneField(root, SelectBase(o), f));
    case Index(o, k) =>
      VisitAdds(root, o, c);
      VisitAdds(root, k, Plus(c, CountsOf(root, o)));
      PlusAssociative(c, CountsOf(root, o), CountsOf(root, k));
      PlusAssociative(c, Plus(CountsOf(root, o), CountsOf(root, k)), IndexField(root, e));
    case Has(x) => VisitAdds(root, x, c);
    case Default(x, y) =>
      VisitAdds(root, x, c);
      VisitAdds(root, y, Plus(c, CountsOf(root, x)));
      PlusAssociative(c, CountsOf(root, x), CountsOf(root, y));
    case Node(_, kids) => VisitAddsSeq(root, kids, c);
    case Compr(_, t, x, bodies) =>
      var d := Plus(CountsOf(root, t), OneIdent(root, x));
      VisitAdds(root, t, c);
      PlusAssociative(c, CountsOf(root, t), OneIdent(root, x));
      VisitAddsSeq(root, bodies, Plus(c, d));
      PlusAssociative(c, d, CountsOfSeq(root, bodies));
    case Where(t, args) =>
      VisitAdds(root, t, c);
      VisitAddsSeq(root, args, Plus(c, CountsOf(root, t)));
      PlusAssociative(c, CountsOf(root, t), CountsOfSeq(root, args));
  }

  lemma {:induction false} VisitAddsSeq(root: string, es: seq<Expr>, c: Counts)
    ensures VisitedSeq(root, es, c) == Plus(c, CountsOfSeq(root, es))
    decreases es, 0
  {
    if es == [] {
      PlusNothing();
    } else {
      VisitAdds(root, es[0], c);
      VisitAddsSeq(root, es[1..], Plus(c, CountsOf(root, es[0])));
      PlusAssociative(c, CountsOf(root, es[0]), CountsOfSeq(root, es[1..]));
    }
  }

  /** The counters one visit of the tree updates, per tracked root. */
  class Visitor {
    var tally: Tallies

    constructor (roots: set<string>)
      ensures tally == map r | r in roots :: NOTHING
    {
      tally := map r | r in roots :: NOTHING;
    }

    method CountIdent(name: string)
      modifies this
      ensures tally.Keys == old(tally.Keys)
      ensures forall r :: r in tally ==> tally[r] == Plus(old(tally)[r], OneIdent(r, name))
    {
      PlusNothing();
      if name in tally {
        var c := tally[name];
        assert c.fields + {} == c.fields;
        tally := tally[name := c.(idents := c.idents + 1)];
      }
    }

    method CountField(base: Option<string>, field: string)
      modifies this
      ensures tally.Keys == old(tally.Keys)
      ensures forall r :: r in tally ==> tally[r] == Plus(old(tally)[r], OneField(r, base, field))
    {
      PlusNothing();
      if base.Some? && base.value in tally {
        var c := tally[base.value];
        tally := tally[base.value := c.(selects := c.selects + 1, fields := c.fields + {field})];
      }
    }

    /** Children first, then the node itself. */
    method Visit(e: Expr)
      modifies this
      ensures tally.Keys == old(tally.Keys)
      ensures forall r :: r in tally ==> tally[r] == Visited(r, e, old(tally)[r])
      decreases e, 0
    {
      match e
      case Lit(_) =>
      case Ident(n) => CountIdent(n);
      case Select(o, f) =>
        Visit(o);
        CountField(SelectBase(o), f);
      case Index(o, k) =>
        Visit(o);
        Visit(k);
        PlusNothing();
        if IsVarsLiteralIndex(e) { CountField(Some(VARS), k.v.s); }
      case Has(x) => Visit(x);
      case Default(x, y) => Visit(x); Visit(y);
      case Node(_, kids) => VisitSeq(kids);
      case Compr(_, t, x, bodies) => Visit(t); CountIdent(x); VisitSeq(bodies);
      case Where(t, args) => Visit(t); VisitSeq(args);
    }

    method VisitSeq(es: seq<Expr>)
      modifies this
      ensures tally.Keys == old(tally.Keys)
      ensures forall r :: r in tally ==> tally[r] == VisitedSeq(r, es, old(tally)[r])
      decreases es, 0
    {
      if es != [] {
        Visit(es[0]);
        VisitSeq(es[1..]);
      }
    }
  }

  /** Every root gets an entry. Text that does not parse is reported as reading all of it, never as
      reading nothing. */
  method PredicateReads(text: Source, roots: set<string>) returns (out: map<string, RootReads>)
    ensures out.Keys == roots
    ensures text.NoText? ==> forall r :: r in roots ==> out[r] == RootReads({}, false)
    ensures text.Unparsable? ==> forall r :: r in roots ==> out[r] == RootReads({}, true)
    ensures text.Tree? ==> forall r :: r in roots ==> out[r] == ReadsOf(r, text.tree)
  {
    var visitor := new Visitor(roots);
    var whole := text != NoText;
    if text.Tree? {
      whole := false;
      visitor.Visit(text.tree);
      forall r | r in roots ensures visitor.tally[r] == CountsOf(r, text.tree) {
        VisitAdds(r, text.tree, NOTHING);
        assert {} + CountsOf(r, text.tree).fields == CountsOf(r, text.tree).fields;
      }
    }
    var tally := visitor.tally;
    out := map r | r in roots :: RootReads(tally[r].fields, whole || tally[r].idents > tally[r].selects);
  }

  // ---- The counting argument --------------------------------------------------------------

  /** Every occurrence of root has a field named off it, and no comprehension declares a variable of
      that name. */
  predicate Accounted(root: string, e: Expr)
    decreases e, 0
  {
    match e
    case Lit(_) => true
    case Ident(n) => n != root
    case Select(o, _) => IsIdent(o, root) || Accounted(root, o)
    case Index(o, k) => (root == VARS && IsVarsLiteralIndex(e)) || (Accounted(root, o) && Accounted(root, k))
    case Has(x) => Accounted(root, x)
    case Default(x, y) => Accounted(root, x) && Accounted(root, y)
    case Node(_, kids) => AccountedSeq(root, kids)
    case Compr(_, t, x, bodies) => Accounted(root, t) && x != root && AccountedSeq(root, bodies)
    case Where(t, args) => Accounted(root, t) && AccountedSeq(root, args)
  }

  predicate AccountedSeq(root: string, es: seq<Expr>)
    decreases es, 0
  {
    es == [] || (Accounted(root, es[0]) && AccountedSeq(root, es[1..]))
  }

  /** Selects counted for root whose operand is not the root itself: `register.hosts.<f>` for
      `register`, `incarnation.state.<f>` for that base. */
  function FlatCount(root: string, e: Expr): nat
    decreases e, 0
  {
    match e
    case Lit(_) => 0
    case Ident(_) => 0
    case Select(o, _) => FlatCount(root, o) + (if !o.Ident? && SelectBase(o) == Some(root) then 1 else 0)
    case Index(o, k) => FlatCount(root, o) + FlatCount(root, k)
    case Has(x) => FlatCount(root, x)
    case Default(x, y) => FlatCount(root, x) + FlatCount(root, y)
    case Node(_, kids) => FlatCountSeq(root, kids)
    case Compr(_, t, _, bodies) => FlatCount(root, t) + FlatCountSeq(root, bodies)
    case Where(t, args) => FlatCount(root, t) + FlatCountSeq(root, args)
  }

  function FlatCountSeq(root: string, es: seq<Expr>): nat
    decreases es, 0
  {
    if es == [] then 0 else FlatCount(root, es[0]) + FlatCountSeq(root, es[1..])
  }

  /** Over the whole tree, the selects that stand on an identifier never outnumber the identifiers,
      and match them exactly when every occurrence is accounted for. */
  lemma {:induction false} CountsAccount(root: string, e: Expr)
    ensures Balanced(root, e)
    decreases e, 0
  {
    match e
    case Lit(_) =>
    case Ident(_) => IdentAccounts(root, e);
    case Select(o, f) => CountsAccount(root, o); SelectAccounts(root, o, f);
    case Index(o, k) => CountsAccount(root, o); CountsAccount(root, k); IndexAccounts(root, o, k);
    case Has(x) => CountsAccount(root, x);
    case Default(x, y) => CountsAccount(root, x); CountsAccount(root, y);
    case Node(_, kids) => CountsAccountSeq(root, kids);
    case Compr(_, t, _, bodies) => CountsAccount(root, t); CountsAccountSeq(root, bodies); ComprAccounts(root, e);
    case Where(t, args) => CountsAccount(root, t); CountsAccountSeq(root, args); WhereAccounts(root, e);
  }

  lemma ComprAccounts(root: string, e: Expr)
    requires e.Compr? && Balanced(root, e.target) && BalancedSeq(root, e.bodies)
    ensures Balanced(root, e)
  {
  }

  lemma WhereAccounts(root: string, e: Expr)
    requires e.Where? && Balanced(root, e.target) && BalancedSeq(root, e.args)
    ensures Balanced(root, e)
  {
  }

  ghost predicate BalancedSeq(root: string, es: seq<Expr>) {
    var c, flat := CountsOfSeq(root, es), FlatCountSeq(root, es);
    && flat <= c.selects <= c.idents + flat
    && (AccountedSeq(root, es) <==> c.selects == c.idents + flat)
  }

  ghost predicate Balanced(root: string, e: Expr) {
    var c, flat := CountsOf(root, e), FlatCount(root, e);
    && flat <= c.selects <= c.idents + flat
    && (Accounted(root, e) <==> c.selects == c.idents + flat)
  }

  lemma SelectAccounts(root: string, o: Expr, f: string)
    requires Balanced(root, o)
    ensures Balanced(root, Select(o, f))
  {
    if o.Ident? { FieldAccounts(root, o.name, f); } else { OperandAccounts(root, o, f); }
  }

  lemma FieldAccounts(root: string, n: string, f: string)
    ensures Balanced(root, Select(Ident(n), f))
  {
    var o := Ident(n);
    IdentAccounts(root, o);
    SelectShape(root, o, f);
  }

  lemma OperandAccounts(root: string, o: Expr, f: string)
    requires !o.Ident? && Balanced(root, o)
    ensures Balanced(root, Select(o, f))
  {
    SelectShape(root, o, f);
  }

  lemma IdentAccounts(root: string, e: Expr)
    requires e.Ident?
    ensures CountsOf(root, e) == OneIdent(root, e.name) && FlatCount(root, e) == 0
    ensures Accounted(root, e) <==> e.name != root
  {
  }

  lemma SelectShape(root: string, o: Expr, f: string)
    ensures CountsOf(root, Select(o, f)) == Plus(CountsOf(root, o), OneField(root, SelectBase(o), f))
    ensures Accounted(root, Select(o, f)) <==> IsIdent(o, root) || Accounted(root, o)
    ensures FlatCount(root, Select(o, f))
      == FlatCount(root, o) + if !o.Ident? && SelectBase(o) == Some(root) then 1 else 0
  {
  }

  lemma IndexAccounts(root: string, o: Expr, k: Expr)
    requires Balanced(root, o) && Balanced(root, k)
    ensures Balanced(root, Index(o, k))
  {
    if root == VARS && IsVarsLiteralIndex(Index(o, k)) {
      VarsIndexAccounts(k.v.s);
    } else {
      OtherIndexAccounts(root, o, k);
    }
  }

  lemma OtherIndexAccounts(root: string, o: Expr, k: Expr)
    requires Balanced(root, o) && Balanced(root, k) && !(root == VARS && IsVarsLiteralIndex(Index(o, k)))
    ensures Balanced(root, Index(o, k))
  {
    var e, c, d := Index(o, k), CountsOf(root, o), CountsOf(root, k);
    assert IndexField(root, e) == NOTHING;
    assert CountsOf(root, e) == Plus(Plus(c, d), NOTHING);
    assert FlatCount(root, e) == FlatCount(root, o) + FlatCount(root, k);
    assert Accounted(root, e) <==> Accounted(root, o) && Accounted(root, k);
  }

  lemma VarsIndexAccounts(s: string)
    ensures Balanced(VARS, Index(Ident(VARS), Lit(VStr(s))))
  {
    var e := Index(Ident(VARS), Lit(VStr(s)));
    assert IsVarsLiteralIndex(e);
    var c, d := CountsOf(VARS, Ident(VARS)), CountsOf(VARS, Lit(VStr(s)));
    assert c.idents == 1 && c.selects == 0 && d.idents == 0 && d.selects == 0;
    assert CountsOf(VARS, e) == Plus(Plus(c, d), OneField(VARS, Some(VARS), s));
  }

  lemma {:induction false} CountsAccountSeq(root: string, es: seq<Expr>)
    ensures BalancedSeq(root, es)
    decreases es, 0
  {
    if es != [] {
      CountsAccount(root, es[0]);
      CountsAccountSeq(root, es[1..]);
    }
  }

  lemma {:induction false} NothingFlattened(root: string, e: Expr)
    requires root != REGISTER && root != STATE_ROOT
    ensures FlatCount(root, e) == 0
    decreases e, 0
  {
    match e
    case Lit(_) =>
    case Ident(_) =>
    case Select(o, _) => NothingFlattened(root, o);
    case Index(o, k) => NothingFlattened(root, o); NothingFlattened(root, k);
    case Has(x) => NothingFlattened(root, x);
    case Default(x, y) => NothingFlattened(root, x); NothingFlattened(root, y);
    case Node(_, kids) => NothingFlattenedSeq(root, kids);
    case Compr(_, t, _, bodies) => NothingFlattened(root, t); NothingFlattenedSeq(root, bodies);
    case Where(t, args) => NothingFlattened(root, t); NothingFlattenedSeq(root, args);
  }

  lemma {:induction false} NothingFlattenedSeq(root: string, es: seq<Expr>)
    requires root != REGISTER && root != STATE_ROOT
    ensures FlatCountSeq(root, es) == 0
    decreases es, 0
  {
    if es != [] {
      NothingFlattened(root, es[0]);
      NothingFlattenedSeq(root, es[1..]);
    }
  }

  /** `Whole` is exact wherever nothing is flattened onto the root, as on every root but `register`
      and the state base: it is false exactly when a field is named off every occurrence. */
  lemma WholeIsExact(root: string, e: Expr)
    requires (root != REGISTER && root != STATE_ROOT) || FlatCount(root, e) == 0
    ensures !ReadsOf(root, e).whole <==> Accounted(root, e)
  {
    CountsAccount(root, e);
    if root != REGISTER && root != STATE_ROOT { NothingFlattened(root, e); }
  }

  /** A whole read of the root goes unreported exactly when the selects, those flattened onto the root
      included, reach the identifiers and still fall short of accounting for each. */
  lemma WholeReadMissedExactly(root: string, e: Expr)
    ensures var c := CountsOf(root, e);
      !ReadsOf(root, e).whole && !Accounted(root, e) <==> c.idents <= c.selects < c.idents + FlatCount(root, e)
    ensures Accounted(root, e) ==> !ReadsOf(root, e).whole
  {
    CountsAccount(root, e);
  }

  // ---- Non-interference -------------------------------------------------------------------

  predicate SameName(n: string, a: Activation, b: Activation) {
    if n in a then n in b && a[n] == b[n] else n !in b
  }

  /** Both bind root to a map, and the maps agree on these fields: present in both with one value, or
      in neither. */
  predicate SameFields(root: string, fields: set<string>, a: Activation, b: Activation) {
    && root in a && a[root].VMap? && root in b && b[root].VMap?
    && forall f :: f in fields ==> SelectOf(Val(a[root]), f) == SelectOf(Val(b[root]), f)
  }

  /** a and b give n alike as far as a set of fields, with every use a field read, can tell. */
  predicate Indistinct(n: string, accounted: bool, fields: set<string>, a: Activation, b: Activation) {
    SameName(n, a, b) || (accounted && (fields != {} ==> SameFields(n, fields, a, b)))
  }

  ghost predicate Covered(e: Expr, a: Activation, b: Activation) {
    forall n :: Indistinct(n, Accounted(n, e), FieldsRead(n, e), a, b)
  }

  ghost predicate CoveredSeq(es: seq<Expr>, a: Activation, b: Activation) {
    forall n :: Indistinct(n, AccountedSeq(n, es), FieldsReadSeq(n, es), a, b)
  }

  /** The functions some oracle stands behind: two evaluations may differ in what these return. */
  ghost predicate SameOps(oracles: set<string>, p: Ops, q: Ops) {
    && (forall op: Op, vs: seq<Value> :: !(op.Call? && op.fn in oracles) ==> p.call(op, vs) == q.call(op, vs))
    && (forall v, k :: p.index(v, k) == q.index(v, k))
    && (forall m :: p.keyOrder(m) == q.keyOrder(m))
    && (forall n :: p.ident(n) == q.ident(n))
  }

  /** How many calls e makes to the given functions. */
  function CallCount(fns: set<string>, e: Expr): nat
    decreases e, 0
  {
    match e
    case Lit(_) => 0
    case Ident(_) => 0
    case Select(o, _) => CallCount(fns, o)
    case Index(o, k) => CallCount(fns, o) + CallCount(fns, k)
    case Has(x) => CallCount(fns, x)
    case Default(x, y) => CallCount(fns, x) + CallCount(fns, y)
    case Node(op, kids) => CallCountSeq(fns, kids) + (if op.Call? && op.fn in fns then 1 else 0)
    case Compr(_, t, _, bodies) => CallCount(fns, t) + CallCountSeq(fns, bodies)
    case Where(t, args) => CallCount(fns, t) + CallCountSeq(fns, args)
  }

  function CallCountSeq(fns: set<string>, es: seq<Expr>): nat
    decreases es, 0
  {
    if es == [] then 0 else CallCount(fns, es[0]) + CallCountSeq(fns, es[1..])
  }

  lemma CoveredChild(e: Expr, child: Expr, a: Activation, b: Activation)
    requires Covered(e, a, b)
    requires forall n :: Accounted(n, e) ==> Accounted(n, child)
    requires forall n :: FieldsRead(n, child) <= FieldsRead(n, e)
    ensures Covered(child, a, b)
  {
    forall n ensures Indistinct(n, Accounted(n, child), FieldsRead(n, child), a, b) {
      assert Indistinct(n, Accounted(n, e), FieldsRead(n, e), a, b);
      assert FieldsRead(n, child) <= FieldsRead(n, e);
    }
  }

  lemma CoveredChildren(e: Expr, es: seq<Expr>, a: Activation, b: Activation)
    requires Covered(e, a, b)
    requires forall n :: Accounted(n, e) ==> AccountedSeq(n, es)
    requires forall n :: FieldsReadSeq(n, es) <= FieldsRead(n, e)
    ensures CoveredSeq(es, a, b)
  {
    forall n ensures Indistinct(n, AccountedSeq(n, es), FieldsReadSeq(n, es), a, b) {
      assert Indistinct(n, Accounted(n, e), FieldsRead(n, e), a, b);
      assert FieldsReadSeq(n, es) <= FieldsRead(n, e);
    }
  }

  lemma CoveredSplit(es: seq<Expr>, a: Activation, b: Activation)
    requires es != [] && CoveredSeq(es, a, b)
    ensures Covered(es[0], a, b) && CoveredSeq(es[1..], a, b)
  {
    forall n ensures Indistinct(n, Accounted(n, es[0]), FieldsRead(n, es[0]), a, b)
                  && Indistinct(n, AccountedSeq(n, es[1..]), FieldsReadSeq(n, es[1..]), a, b) {
      assert Indistinct(n, AccountedSeq(n, es), FieldsReadSeq(n, es), a, b);
    }
  }

  /** An expression is a function of what it reads: activations that agree on the fields read off
      every root they differ in give it one value-or-error. */
  lemma {:induction false} ReadsDetermineValue(e: Expr, a: Activation, b: Activation, env: Scope,
                                               oracles: set<string>, p: Ops, q: Ops)
    requires Covered(e, a, b)
    requires SameOps(oracles, p, q) && CallCount(oracles, e) == 0
    ensures Eval(e, a, env, p) == Eval(e, b, env, q)
    decreases e, 1
  {
    match e
    case Lit(_) =>
    case Ident(n) => assert Indistinct(n, Accounted(n, e), FieldsRead(n, e), a, b);
    case Select(o, f) => OperandDetermined(o, f, a, b, env, oracles, p, q);
    case Index(_, _) => IndexDetermined(e, a, b, env, oracles, p, q);
    case Has(x) =>
      CoveredChild(e, x, a, b);
      if x.Select? { OperandDetermined(x.operand, x.field, a, b, env, oracles, p, q); }
    case Default(_, _) => DefaultDetermined(e, a, b, env, oracles, p, q);
    case Node(op, kids) =>
      CoveredChildren(e, kids, a, b);
      ReadsDetermineSeq(kids, a, b, env, oracles, p, q);
    case Compr(_, _, _, _) => ComprDetermined(e, a, b, env, oracles, p, q);
    case Where(_, _) =>
  }

  lemma {:induction false} IndexDetermined(e: Expr, a: Activation, b: Activation, env: Scope,
                                           oracles: set<string>, p: Ops, q: Ops)
    requires e.Index? && Covered(e, a, b)
    requires SameOps(oracles, p, q) && CallCount(oracles, e) == 0
    ensures Eval(e, a, env, p) == Eval(e, b, env, q)
    decreases e, 0
  {
    if IsVarsLiteralIndex(e) {
      VarsIndexDetermined(e.key.v.s, a, b, env, p, q);
    } else {
      CoveredChild(e, e.operand, a, b);
      CoveredChild(e, e.key, a, b);
      ReadsDetermineValue(e.operand, a, b, env, oracles, p, q);
      ReadsDetermineValue(e.key, a, b, env, oracles, p, q);
    }
  }

  lemma {:induction false} DefaultDetermined(e: Expr, a: Activation, b: Activation, env: Scope,
                                             oracles: set<string>, p: Ops, q: Ops)
    requires e.Default? && Covered(e, a, b)
    requires SameOps(oracles, p, q) && CallCount(oracles, e) == 0
    ensures Eval(e, a, env, p) == Eval(e, b, env, q)
    decreases e, 0
  {
    var x := e.arg;
    CoveredChild(e, x, a, b);
    CoveredChild(e, e.fallback, a, b);
    ReadsDetermineValue(x, a, b, env, oracles, p, q);
    ReadsDetermineValue(e.fallback, a, b, env, oracles, p, q);
    if x.Select? { OperandDetermined(x.operand, x.field, a, b, env, oracles, p, q); }
  }

  lemma CoveredCompr(e: Expr, a: Activation, b: Activation)
    requires e.Compr? && Covered(e, a, b)
    ensures Covered(e.target, a, b) && CoveredSeq(e.bodies, a, b)
  {
    CoveredChild(e, e.target, a, b);
    CoveredChildren(e, e.bodies, a, b);
  }

  lemma {:induction false} ComprDetermined(e: Expr, a: Activation, b: Activation, env: Scope,
                                           oracles: set<string>, p: Ops, q: Ops)
    requires e.Compr? && Covered(e, a, b)
    requires SameOps(oracles, p, q) && CallCount(oracles, e) == 0
    ensures Eval(e, a, env, p) == Eval(e, b, env, q)
    decreases e, 0
  {
    CoveredCompr(e, a, b);
    ReadsDetermineValue(e.target, a, b, env, oracles, p, q);
    var xs := Elements(Eval(e.target, a, env, p), p);
    if xs.Some? { ReadsDetermineBodies(e.bodies, e.iter, xs.value, a, b, env, oracles, p, q); }
  }

  lemma {:induction false} OperandDetermined(o: Expr, f: string, a: Activation, b: Activation, env: Scope,
                                             oracles: set<string>, p: Ops, q: Ops)
    requires Covered(Select(o, f), a, b)
    requires SameOps(oracles, p, q) && CallCount(oracles, o) == 0
    ensures SelectOf(Eval(o, a, env, p), f) == SelectOf(Eval(o, b, env, q), f)
    ensures HasOf(Eval(o, a, env, p), f) == HasOf(Eval(o, b, env, q), f)
    decreases o, 2
  {
    var e := Select(o, f);
    if o.Ident? {
      var n := o.name;
      assert Indistinct(n, Accounted(n, e), FieldsRead(n, e), a, b);
      assert f in FieldsRead(n, e);
    } else {
      CoveredChild(e, o, a, b);
      ReadsDetermineValue(o, a, b, env, oracles, p, q);
    }
  }

  lemma VarsIndexDetermined(k: string, a: Activation, b: Activation, env: Scope, p: Ops, q: Ops)
    requires Covered(Index(Ident(VARS), Lit(VStr(k))), a, b)
    requires forall v, k :: p.index(v, k) == q.index(v, k)
    requires forall n :: p.ident(n) == q.ident(n)
    ensures var e := Index(Ident(VARS), Lit(VStr(k))); Eval(e, a, env, p) == Eval(e, b, env, q)
  {
    var e := Index(Ident(VARS), Lit(VStr(k)));
    assert Indistinct(VARS, Accounted(VARS, e), FieldsRead(VARS, e), a, b);
    assert k in FieldsRead(VARS, e);
  }

  lemma {:induction false} ReadsDetermineSeq(es: seq<Expr>, a: Activation, b: Activation, env: Scope,
                                             oracles: set<string>, p: Ops, q: Ops)
    requires CoveredSeq(es, a, b)
    requires SameOps(oracles, p, q) && CallCountSeq(oracles, es) == 0
    ensures EvalSeq(es, a, env, p) == EvalSeq(es, b, env, q)
    decreases es, 0
  {
    if es != [] {
      CoveredSplit(es, a, b);
      ReadsDetermineValue(es[0], a, b, env, oracles, p, q);
      ReadsDetermineSeq(es[1..], a, b, env, oracles, p, q);
    }
  }

  lemma {:induction false} ReadsDetermineBodies(bodies: seq<Expr>, x: string, xs: seq<Value>, a: Activation,
                                                b: Activation,
                                                env: Scope, oracles: set<string>, p: Ops, q: Ops)
    requires CoveredSeq(bodies, a, b)
    requires SameOps(oracles, p, q) && CallCountSeq(oracles, bodies) == 0
    ensures EvalBodies(bodies, x, xs, a, env, p) == EvalBodies(bodies, x, xs, b, env, q)
    decreases bodies, 0
  {
    if bodies != [] {
      CoveredSplit(bodies, a, b);
      forall i | 0 <= i < |xs|
        ensures Eval(bodies[0], a, env[x := xs[i]], p) == Eval(bodies[0], b, env[x := xs[i]], q)
      {
        ReadsDetermineValue(bodies[0], a, b, env[x := xs[i]], oracles, p, q);
      }
      EvalEachAt(bodies[0], x, xs, a, env, p);
      EvalEachAt(bodies[0], x, xs, b, env, q);
      assert EvalEach(bodies[0], x, xs, a, env, p) == EvalEach(bodies[0], x, xs, b, env, q);
      ReadsDetermineBodies(bodies[1..], x, xs, a, b, env, oracles, p, q);
    }
  }

  lemma {:induction false} NoOracleNoCalls(e: Expr)
    ensures CallCount({}, e) == 0
    decreases e, 0
  {
    match e
    case Lit(_) =>
    case Ident(_) =>
    case Select(o, _) => NoOracleNoCalls(o);
    case Index(o, k) => NoOracleNoCalls(o); NoOracleNoCalls(k);
    case Has(x) => NoOracleNoCalls(x);
    case Default(x, y) => NoOracleNoCalls(x); NoOracleNoCalls(y);
    case Node(_, kids) => NoOracleNoCallsSeq(kids);
    case Compr(_, t, _, bodies) => NoOracleNoCalls(t); NoOracleNoCallsSeq(bodies);
    case Where(t, args) => NoOracleNoCalls(t); NoOracleNoCallsSeq(args);
  }

  lemma {:induction false} NoOracleNoCallsSeq(es: seq<Expr>)
    ensures CallCountSeq({}, es) == 0
    decreases es, 0
  {
    if es != [] {
      NoOracleNoCalls(es[0]);
      NoOracleNoCallsSeq(es[1..]);
    }
  }

  // ---- Narrowing --------------------------------------------------------------------------

  function Restrict(m: map<Key, Value>, fields: set<string>): map<Key, Value> {
    map k | k in m && k.KStr? && k.ks in fields :: m[k]
  }

  /** The activation with each listed root cut down to the fields listed for it. */
  function Narrow(act: Activation, cut: map<string, set<string>>): Activation {
    map n | n in act :: if n in cut && act[n].VMap? then VMap(Restrict(act[n].m, cut[n])) else act[n]
  }

  /** The report on this root may be acted on: it is not a whole read, and where selects are flattened
      onto the root, they do not stand in for an occurrence that names no field. */
  predicate MayNarrow(root: string, e: Expr) {
    !ReadsOf(root, e).whole && (root == REGISTER || root == STATE_ROOT ==> Accounted(root, e))
  }

  lemma NarrowAccounted(root: string, e: Expr)
    requires MayNarrow(root, e)
    ensures Accounted(root, e)
  {
    if root != REGISTER && root != STATE_ROOT { WholeIsExact(root, e); }
  }

  lemma NarrowedAlike(n: string, accounted: bool, fields: set<string>, act: Activation, cut: map<string, set<string>>)
    requires n in cut ==> accounted && fields <= cut[n]
    ensures Indistinct(n, accounted, fields, Narrow(act, cut), act)
  {
    var narrow := Narrow(act, cut);
    if n in cut && n in act && act[n].VMap? {
      forall f | f in fields ensures SelectOf(Val(narrow[n]), f) == SelectOf(Val(act[n]), f) {
        assert f in cut[n];
      }
    } else {
      assert SameName(n, narrow, act);
    }
  }

  /** Cutting any number of roots down to the fields read off them, or to more, never changes the
      expression's value-or-error. A caller may so union the reads of several predicates. */
  lemma NarrowingIsSound(e: Expr, act: Activation, cut: map<string, set<string>>, env: Scope, ops: Ops)
    requires forall n :: n in cut ==> MayNarrow(n, e) && ReadsOf(n, e).fields <= cut[n]
    ensures Eval(e, Narrow(act, cut), env, ops) == Eval(e, act, env, ops)
  {
    var narrow := Narrow(act, cut);
    forall n ensures Indistinct(n, Accounted(n, e), FieldsRead(n, e), narrow, act) {
      if n in cut { NarrowAccounted(n, e); }
      NarrowedAlike(n, Accounted(n, e), FieldsRead(n, e), act, cut);
    }
    NoOracleNoCalls(e);
    ReadsDetermineValue(e, narrow, act, env, {}, ops, ops);
  }

  /** On `register` the counting alone is not enough: `[register.hosts.x, register]` reads the whole
      map, the two selects of its first element cover for the bare read, and narrowing loses data. */
  lemma RegisterWholeReadMissed(ops: Ops)
    ensures exists e, act: Activation ::
      && !ReadsOf(REGISTER, e).whole
      && Eval(e, Narrow(act, map[REGISTER := ReadsOf(REGISTER, e).fields]), map[], ops) != Eval(e, act, map[], ops)
  {
    var x, bare := HOSTS_X, Ident(REGISTER);
    var e := Node(ListOp, [x, bare]);
    MissedCounts(x, bare);
    var m := map[KStr(HOSTS_KEY) := VMap(map[KStr("x") := VInt(1)]), KStr("probe") := VInt(2)];
    var act: Activation := map[REGISTER := VMap(m)];
    var fields := ReadsOf(REGISTER, e).fields;
    var cut := Restrict(m, fields);
    assert Narrow(act, map[REGISTER := fields]) == map[REGISTER := VMap(cut)];
    assert KStr("probe") !in cut && KStr("probe") in m;
    MissedValue(m, ops);
    MissedValue(cut, ops);
    assert [VInt(1), VMap(m)][1] != [VInt(1), VMap(cut)][1];
  }

  const HOSTS_X := Select(Select(Ident(REGISTER), HOSTS_KEY), "x")

  lemma MissedCounts(x: Expr, bare: Expr)
    requires x == HOSTS_X && bare == Ident(REGISTER)
    ensures var found := ReadsOf(REGISTER, Node(ListOp, [x, bare]));
            !found.whole && HOSTS_KEY in found.fields && "probe" !in found.fields
  {
    IdentCounts(REGISTER, bare);
    SelectCounts(REGISTER, x.operand.operand, HOSTS_KEY);
    SelectCounts(REGISTER, x.operand, "x");
    CountsOfTwo(REGISTER, x, bare);
  }

  lemma IdentCounts(root: string, e: Expr)
    requires e == Ident(root)
    ensures CountsOf(root, e) == Counts(1, 0, {})
  {
  }

  lemma SelectCounts(root: string, o: Expr, f: string)
    requires SelectBase(o) == Some(root)
    ensures var c := CountsOf(root, o); CountsOf(root, Select(o, f)) == Counts(c.idents, c.selects + 1, c.fields + {f})
  {
    SelectShape(root, o, f);
  }

  lemma CountsOfTwo(root: string, x: Expr, y: Expr)
    ensures CountsOfSeq(root, [x, y]) == Plus(CountsOf(root, x), Plus(CountsOf(root, y), NOTHING))
  {
    assert [x, y][1..] == [y] && [y][1..] == [];
    assert CountsOfSeq(root, []) == NOTHING;
  }

  lemma MissedValue(m: map<Key, Value>, ops: Ops)
    requires KStr(HOSTS_KEY) in m && m[KStr(HOSTS_KEY)] == VMap(map[KStr("x") := VInt(1)])
    ensures Eval(Node(ListOp, [HOSTS_X, Ident(REGISTER)]), map[REGISTER := VMap(m)], map[], ops)
         == Val(VList([VInt(1), VMap(m)]))
  {
    var act, bare := map[REGISTER := VMap(m)], Ident(REGISTER);
    assert Eval(HOSTS_X, act, map[], ops) == Val(VInt(1));
    EvalSeqCons(HOSTS_X, [bare], act, map[], ops);
    assert [HOSTS_X] + [bare] == [HOSTS_X, bare];
    assert EvalSeq([bare], act, map[], ops) == [Val(VMap(m))];
    StrictOne(VMap(m));
    StrictCons(VInt(1), [Val(VMap(m))]);
    assert [VInt(1)] + [VMap(m)] == [VInt(1), VMap(m)];
  }
}
