/** What the analyses collect, said of the nodes of the tree.

    Each walk is recursive and counts as it goes. Here its result is the set of what stands in the tree: a
    name is collected if and only if some node carries it.
 */
module Occurrences {
  import opened Cel
  import opened Wrappers
  import opened Reads
  import opened Seal
  import opened SealDeep
  import opened SealWhere
  import opened Nodes

  // ---- What is collected ----------------------------------------------------------------------

  /** An identifier of that name, or a comprehension that declares a variable of it. */
  function NamesIt(n: string): Expr -> bool {
    (x: Expr) => (x.Ident? && x.name == n) || (x.Compr? && x.iter == n)
  }

  /** A select of the field off the base, or on `vars` the same by a literal index. */
  function ReadsIt(base: string, f: string): Expr -> bool {
    (x: Expr) =>
      || (x.Select? && x.field == f && SelectBase(x.operand) == Some(base))
      || (x.Index? && base == VARS && x.operand == Ident(VARS) && x.key == Lit(VStr(f)))
  }

  /** A call of one of these functions. */
  function CallsIt(fns: set<string>): Expr -> bool {
    (x: Expr) => x.Node? && x.op.Call? && x.op.fn in fns
  }

  /** A name is collected if and only if some node carries it. */
  lemma {:induction false} IdentsExactly(n: string, e: Expr)
    ensures n in Idents(e) <==> Occurs(Children, e, NamesIt(n))
    decreases e, 0
  {
    var has := NamesIt(n);
    OccursHere(Children, e, has);
    ChildrenOccur(Children, e, has);
    match e
    case Lit(_) =>
    case Ident(_) =>
    case Select(o, _) => IdentsExactly(n, o);
    case Index(o, k) => IdentsExactly(n, o); IdentsExactly(n, k);
    case Has(x) => IdentsExactly(n, x);
    case Default(x, y) => IdentsExactly(n, x); IdentsExactly(n, y);
    case Node(_, kids) => IdentsExactlySeq(n, kids);
    case Compr(_, t, _, bodies) => IdentsExactly(n, t); IdentsExactlySeq(n, bodies);
    case Where(t, args) => IdentsExactly(n, t); IdentsExactlySeq(n, args);
  }

  lemma {:induction false} IdentsExactlySeq(n: string, es: seq<Expr>)
    ensures n in IdentsSeq(es) <==> OccursIn(Children, es, NamesIt(n))
    decreases es, 0
  {
    var has := NamesIt(n);
    OccursNowhere(Children, has);
    if es != [] {
      IdentsExactly(n, es[0]);
      IdentsExactlySeq(n, es[1..]);
      OccursCons(Children, es[0], es[1..], has);
      assert [es[0]] + es[1..] == es;
    }
  }

  /** An address is collected if and only if some node reads it. */
  lemma {:induction false} AddrsExactly(b: string, f: string, e: Expr)
    ensures (b, f) in Addrs(e) <==> Occurs(Children, e, ReadsIt(b, f))
    decreases e, 0
  {
    var has := ReadsIt(b, f);
    OccursHere(Children, e, has);
    ChildrenOccur(Children, e, has);
    match e
    case Lit(_) =>
    case Ident(_) =>
    case Select(o, _) => AddrsExactly(b, f, o);
    case Index(o, k) => AddrsExactly(b, f, o); AddrsExactly(b, f, k);
    case Has(x) => AddrsExactly(b, f, x);
    case Default(x, y) => AddrsExactly(b, f, x); AddrsExactly(b, f, y);
    case Node(_, kids) => AddrsExactlySeq(b, f, kids);
    case Compr(_, t, _, bodies) => AddrsExactly(b, f, t); AddrsExactlySeq(b, f, bodies);
    case Where(t, args) => AddrsExactly(b, f, t); AddrsExactlySeq(b, f, args);
  }

  lemma {:induction false} AddrsExactlySeq(b: string, f: string, es: seq<Expr>)
    ensures (b, f) in AddrsSeq(es) <==> OccursIn(Children, es, ReadsIt(b, f))
    decreases es, 0
  {
    var has := ReadsIt(b, f);
    OccursNowhere(Children, has);
    if es != [] {
      AddrsExactly(b, f, es[0]);
      AddrsExactlySeq(b, f, es[1..]);
      OccursCons(Children, es[0], es[1..], has);
      assert [es[0]] + es[1..] == es;
    }
  }

  lemma {:induction false} AddrsAreFields(root: string, e: Expr, f: string)
    requires (root, f) in Addrs(e)
    ensures f in FieldsRead(root, e)
    decreases e, 0
  {
    match e
    case Select(o, _) => if (root, f) in Addrs(o) { AddrsAreFields(root, o, f); }
    case Index(o, k) =>
      if (root, f) in Addrs(o) { AddrsAreFields(root, o, f); }
      if (root, f) in Addrs(k) { AddrsAreFields(root, k, f); }
    case Has(x) => AddrsAreFields(root, x, f);
    case Default(x, y) =>
      if (root, f) in Addrs(x) { AddrsAreFields(root, x, f); } else { AddrsAreFields(root, y, f); }
    case Node(_, kids) => AddrsAreFieldsSeq(root, kids, f);
    case Compr(_, t, _, bodies) =>
      if (root, f) in Addrs(t) { AddrsAreFields(root, t, f); } else { AddrsAreFieldsSeq(root, bodies, f); }
    case Where(t, args) =>
      if (root, f) in Addrs(t) { AddrsAreFields(root, t, f); } else { AddrsAreFieldsSeq(root, args, f); }
  }

  lemma {:induction false} AddrsAreFieldsSeq(root: string, es: seq<Expr>, f: string)
    requires (root, f) in AddrsSeq(es)
    ensures f in FieldsReadSeq(root, es)
    decreases es, 0
  {
    if (root, f) in Addrs(es[0]) { AddrsAreFields(root, es[0], f); } else { AddrsAreFieldsSeq(root, es[1..], f); }
  }

  /** A field is reported of a root if and only if some node reads it off the root. */
  lemma FieldsExactly(root: string, f: string, e: Expr)
    ensures f in FieldsRead(root, e) <==> Occurs(Children, e, ReadsIt(root, f))
  {
    AddrsExactly(root, f, e);
    if (root, f) in Addrs(e) { AddrsAreFields(root, e, f); }
    if f in FieldsRead(root, e) { FieldsAreAddrs(root, e, f); }
  }

  /** A call is counted if and only if one stands there. */
  lemma {:induction false} CallsExactly(fns: set<string>, e: Expr)
    ensures CallCount(fns, e) > 0 <==> Occurs(Children, e, CallsIt(fns))
    decreases e, 0
  {
    var has := CallsIt(fns);
    OccursHere(Children, e, has);
    ChildrenOccur(Children, e, has);
    match e
    case Lit(_) =>
    case Ident(_) =>
    case Select(o, _) => CallsExactly(fns, o);
    case Index(o, k) => CallsExactly(fns, o); CallsExactly(fns, k);
    case Has(x) => CallsExactly(fns, x);
    case Default(x, y) => CallsExactly(fns, x); CallsExactly(fns, y);
    case Node(_, kids) => CallsExactlySeq(fns, kids);
    case Compr(_, t, _, bodies) => CallsExactly(fns, t); CallsExactlySeq(fns, bodies);
    case Where(t, args) => CallsExactly(fns, t); CallsExactlySeq(fns, args);
  }

  lemma {:induction false} CallsExactlySeq(fns: set<string>, es: seq<Expr>)
    ensures CallCountSeq(fns, es) > 0 <==> OccursIn(Children, es, CallsIt(fns))
    decreases es, 0
  {
    var has := CallsIt(fns);
    OccursNowhere(Children, has);
    if es != [] {
      CallsExactly(fns, es[0]);
      CallsExactlySeq(fns, es[1..]);
      OccursCons(Children, es[0], es[1..], has);
      assert [es[0]] + es[1..] == es;
    }
  }

  // ---- The verdict ------------------------------------------------------------------------------

  /** Some tainted field of the root. */
  ghost predicate TaintedField(s: Sources, root: string) {
    exists f :: FieldAddr(root, f) in s.fields
  }

  lemma AnyFieldExactly(s: Sources, root: string)
    ensures AnyField(s, root) <==> TaintedField(s, root)
  {
    if addr :| addr in s.fields && FieldAddr(root, "") <= addr {
      var p := FieldAddr(root, "");
      assert addr == FieldAddr(root, addr[|p|..]);
    }
    if f :| FieldAddr(root, f) in s.fields { assert FieldAddr(root, "") <= FieldAddr(root, f); }
  }

  /** A name tainted whole stands in the tree. */
  ghost predicate TaintedName(e: Expr, s: Sources) {
    exists n :: n in s.roots && Occurs(Children, e, NamesIt(n))
  }

  /** A tainted field is read, or any field of a binding tainted whole. */
  ghost predicate TaintedRead(e: Expr, s: Sources) {
    exists b, f :: (b in s.roots || b + "." + f in s.fields) && Occurs(Children, e, ReadsIt(b, f))
  }

  lemma NamesExactly(e: Expr, s: Sources)
    ensures CleanNames(Idents(e), s) <==> !TaintedName(e, s)
  {
    forall n ensures n in Idents(e) <==> Occurs(Children, e, NamesIt(n)) { IdentsExactly(n, e); }
  }

  lemma AddrsClean(e: Expr, s: Sources)
    ensures CleanAddrs(Addrs(e), s) <==> !TaintedRead(e, s)
  {
    if b, f :| (b in s.roots || b + "." + f in s.fields) && Occurs(Children, e, ReadsIt(b, f)) {
      AddrsExactly(b, f, e);
      assert ReadsSecretAddr((b, f).0, (b, f).1, s);
    }
    if x :| x in Addrs(e) && ReadsSecretAddr(x.0, x.1, s) { AddrsExactly(x.0, x.1, e); }
  }

  /** A tree is sealed, exactly: it calls a Vault function, a name tainted whole or a tainted field stands in
      it, or `vars` is read without naming a field and some field of it is tainted. */
  lemma SealedExactly(root: string, e: Expr, s: Sources)
    requires root == VARS
    ensures Sealed(e, s) <==>
      || Occurs(Children, e, CallsIt(VAULT)) || TaintedName(e, s) || TaintedRead(e, s)
      || (!Accounted(root, e) && TaintedField(s, root))
  {
    ClearExactly(root, e, s);
    CallsExactly(VAULT, e);
    NamesExactly(e, s);
    AddrsClean(e, s);
    AnyFieldExactly(s, root);
  }

  /** Where a lone Vault call does not count, two of them do. */
  lemma SecretWithoutVault(e: Expr, s: Sources)
    ensures ReadsSecret(ExprSealReads(e), s, true) <==>
      ReadsSecret(ExprSealReads(e), s, false) || CallCount(VAULT, e) > 0
    ensures CallCount(VAULT, e) > 1 ==> ReadsSecret(ExprSealReads(e), s, false)
    ensures CallCount(VAULT, e) <= 1 ==>
      (ReadsSecret(ExprSealReads(e), s, false) <==> ReadsSecret(ExprSealReads(e).(vaultCalls := 0), s, true))
  {
  }
}
