/** Seal soundness one level down: `register.hosts.<name>` and `incarnation.state.<field>` are judged at
    the level their author reads, so the maps between may differ in tainted entries too.
 */
module SealDeep {
  import opened Cel
  import opened Wrappers
  import opened Reads
  import opened Seal

  // ---- Agreement node by node ---------------------------------------------------------------

  /** `<root>.<key>`, or the same by a literal index. */
  predicate IsKeyRead(o: Expr) {
    (o.Select? && o.operand.Ident?) || (o.Index? && o.operand.Ident? && o.key.Lit? && o.key.v.VStr?)
  }

  function KeyName(o: Expr): string
    requires IsKeyRead(o)
  {
    if o.Select? then o.field else o.key.v.s
  }

  predicate BothMaps(n: string, a: Activation, b: Activation) {
    n in a && a[n].VMap? && n in b && b[n].VMap?
  }

  predicate AgreeField(n: string, f: string, a: Activation, b: Activation) {
    SameName(n, a, b) || (BothMaps(n, a, b) && SelectOf(Val(a[n]), f) == SelectOf(Val(b[n]), f))
  }

  predicate IsMap(o: Outcome) {
    o.Val? && o.v.VMap?
  }

  /** The field of a field agrees, though the map between may not. */
  predicate AgreeDeep(n: string, key: string, f: string, a: Activation, b: Activation) {
    AgreeField(n, key, a, b) ||
    (BothMaps(n, a, b) &&
     var x, y := SelectOf(Val(a[n]), key), SelectOf(Val(b[n]), key);
     IsMap(x) && IsMap(y) && SelectOf(x, f) == SelectOf(y, f))
  }

  /** Everything e reads, a and b give alike. */
  predicate Agreed(e: Expr, a: Activation, b: Activation)
    decreases e, 0
  {
    match e
    case Lit(_) => true
    case Ident(n) => SameName(n, a, b)
    case Select(o, f) =>
      if o.Ident? then AgreeField(o.name, f, a, b)
      else if IsKeyRead(o) then AgreeDeep(o.operand.name, KeyName(o), f, a, b)
      else Agreed(o, a, b)
    case Index(o, k) =>
      if IsKeyRead(e) then AgreeField(o.name, k.v.s, a, b) else Agreed(o, a, b) && Agreed(k, a, b)
    case Has(x) => Agreed(x, a, b)
    case Default(x, y) => Agreed(x, a, b) && Agreed(y, a, b)
    case Node(_, kids) => AgreedSeq(kids, a, b)
    case Compr(_, t, _, bodies) => Agreed(t, a, b) && AgreedSeq(bodies, a, b)
    case Where(_, _) => true
  }

  predicate AgreedSeq(es: seq<Expr>, a: Activation, b: Activation)
    decreases es, 0
  {
    es == [] || (Agreed(es[0], a, b) && AgreedSeq(es[1..], a, b))
  }

  lemma {:induction false} AgreedEvaluates(e: Expr, a: Activation, b: Activation, env: Scope, p: Ops, q: Ops)
    requires Agreed(e, a, b) && SameOps(VAULT, p, q) && CallCount(VAULT, e) == 0
    ensures Eval(e, a, env, p) == Eval(e, b, env, q)
    decreases e, 1
  {
    match e
    case Lit(_) =>
    case Ident(_) =>
    case Select(o, f) => OperandAgrees(o, f, a, b, env, p, q);
    case Index(o, k) =>
      if IsKeyRead(e) { KeyReadAgrees(e, a, b, env, p, q); }
      else { AgreedEvaluates(o, a, b, env, p, q); AgreedEvaluates(k, a, b, env, p, q); }
    case Has(x) => if x.Select? { OperandAgrees(x.operand, x.field, a, b, env, p, q); }
    case Default(_, _) => DefaultAgrees(e, a, b, env, p, q);
    case Node(_, kids) => AgreedEvaluatesSeq(kids, a, b, env, p, q);
    case Compr(_, _, _, _) => ComprAgrees(e, a, b, env, p, q);
    case Where(_, _) =>
  }

  lemma {:induction false} DefaultAgrees(e: Expr, a: Activation, b: Activation, env: Scope, p: Ops, q: Ops)
    requires e.Default? && Agreed(e, a, b) && SameOps(VAULT, p, q) && CallCount(VAULT, e) == 0
    ensures Eval(e, a, env, p) == Eval(e, b, env, q)
    decreases e, 0
  {
    AgreedEvaluates(e.arg, a, b, env, p, q);
    AgreedEvaluates(e.fallback, a, b, env, p, q);
    if e.arg.Select? { OperandAgrees(e.arg.operand, e.arg.field, a, b, env, p, q); }
  }

  lemma {:induction false} ComprAgrees(e: Expr, a: Activation, b: Activation, env: Scope, p: Ops, q: Ops)
    requires e.Compr? && Agreed(e, a, b) && SameOps(VAULT, p, q) && CallCount(VAULT, e) == 0
    ensures Eval(e, a, env, p) == Eval(e, b, env, q)
    decreases e, 0
  {
    AgreedEvaluates(e.target, a, b, env, p, q);
    var over := Eval(e.target, a, env, p);
    SameElements(over, p, q);
    var xs := Elements(over, p);
    if xs.Some? {
      AgreedEvaluatesBodies(e.bodies, e.iter, xs.value, a, b, env, p, q);
      ComprEvaluates(e.macro, e.target, e.iter, e.bodies, xs.value, a, env, p);
      ComprEvaluates(e.macro, e.target, e.iter, e.bodies, xs.value, b, env, q);
    }
  }

  lemma SameElements(over: Outcome, p: Ops, q: Ops)
    requires SameOps(VAULT, p, q)
    ensures Elements(over, p) == Elements(over, q)
  {
  }

  lemma KeyReadAgrees(e: Expr, a: Activation, b: Activation, env: Scope, p: Ops, q: Ops)
    requires IsKeyRead(e) && AgreeField(e.operand.name, KeyName(e), a, b) && SameOps(VAULT, p, q)
    ensures Eval(e, a, env, p) == Eval(e, b, env, q)
  {
  }

  lemma {:induction false} OperandAgrees(o: Expr, f: string, a: Activation, b: Activation, env: Scope, p: Ops, q: Ops)
    requires Agreed(Select(o, f), a, b) && SameOps(VAULT, p, q) && CallCount(VAULT, o) == 0
    ensures SelectOf(Eval(o, a, env, p), f) == SelectOf(Eval(o, b, env, q), f)
    ensures HasOf(Eval(o, a, env, p), f) == HasOf(Eval(o, b, env, q), f)
    decreases o, 2
  {
    if o.Ident? {
    } else if IsKeyRead(o) {
      DeepAgrees(o, f, a, b, env, p, q);
    } else {
      AgreedEvaluates(o, a, b, env, p, q);
    }
  }

  lemma DeepAgrees(o: Expr, f: string, a: Activation, b: Activation, env: Scope, p: Ops, q: Ops)
    requires IsKeyRead(o) && AgreeDeep(o.operand.name, KeyName(o), f, a, b) && SameOps(VAULT, p, q)
    ensures SelectOf(Eval(o, a, env, p), f) == SelectOf(Eval(o, b, env, q), f)
    ensures HasOf(Eval(o, a, env, p), f) == HasOf(Eval(o, b, env, q), f)
  {
    var n, key := o.operand.name, KeyName(o);
    if AgreeField(n, key, a, b) {
      KeyReadAgrees(o, a, b, env, p, q);
    } else if n !in env {
      assert Eval(o, a, env, p) == SelectOf(Val(a[n]), key) && Eval(o, b, env, q) == SelectOf(Val(b[n]), key);
    }
  }

  lemma {:induction false} AgreedEvaluatesSeq(es: seq<Expr>, a: Activation, b: Activation, env: Scope, p: Ops, q: Ops)
    requires AgreedSeq(es, a, b) && SameOps(VAULT, p, q) && CallCountSeq(VAULT, es) == 0
    ensures EvalSeq(es, a, env, p) == EvalSeq(es, b, env, q)
    decreases es, 0
  {
    if es != [] {
      AgreedEvaluates(es[0], a, b, env, p, q);
      AgreedEvaluatesSeq(es[1..], a, b, env, p, q);
    }
  }

  lemma {:induction false} AgreedEvaluatesBodies(bodies: seq<Expr>, x: string, xs: seq<Value>, a: Activation,
                                                 b: Activation, env: Scope, p: Ops, q: Ops)
    requires AgreedSeq(bodies, a, b) && SameOps(VAULT, p, q) && CallCountSeq(VAULT, bodies) == 0
    ensures EvalBodies(bodies, x, xs, a, env, p) == EvalBodies(bodies, x, xs, b, env, q)
    decreases bodies, 0
  {
    if bodies != [] {
      forall i | 0 <= i < |xs|
        ensures Eval(bodies[0], a, env[x := xs[i]], p) == Eval(bodies[0], b, env[x := xs[i]], q)
      {
        AgreedEvaluates(bodies[0], a, b, env[x := xs[i]], p, q);
      }
      EvalEachAt(bodies[0], x, xs, a, env, p);
      EvalEachAt(bodies[0], x, xs, b, env, q);
      assert EvalEach(bodies[0], x, xs, a, env, p) == EvalEach(bodies[0], x, xs, b, env, q);
      AgreedEvaluatesBodies(bodies[1..], x, xs, a, b, env, p, q);
    }
  }

  // ---- Reads by name ------------------------------------------------------------------------

  /** The field of a root whose own fields are judged, if there is one. */
  function DeepKey(n: string): Option<string> {
    if n == REGISTER then Some(HOSTS_KEY) else if n == INCARNATION then Some(STATE_KEY) else None
  }

  /** The base those fields are judged under. */
  function DeepBase(n: string): string {
    if n == INCARNATION then STATE_ROOT else n
  }

  predicate IsDeepRead(n: string, o: Expr) {
    IsKeyRead(o) && o.operand.name == n && DeepKey(n) == Some(KeyName(o))
  }

  /** Every occurrence of the root has a field named off it, and where that is the field judged below, a
      field of it is named in turn. */
  predicate NamedOnly(n: string, e: Expr)
    decreases e, 0
  {
    match e
    case Lit(_) => true
    case Ident(m) => m != n
    case Select(o, f) =>
      if IsIdent(o, n) then DeepKey(n) != Some(f) else IsDeepRead(n, o) || NamedOnly(n, o)
    case Index(o, k) => (n == VARS && IsVarsLiteralIndex(e)) || (NamedOnly(n, o) && NamedOnly(n, k))
    case Has(x) => NamedOnly(n, x)
    case Default(x, y) => NamedOnly(n, x) && NamedOnly(n, y)
    case Node(_, kids) => NamedOnlySeq(n, kids)
    case Compr(_, t, _, bodies) => NamedOnly(n, t) && NamedOnlySeq(n, bodies)
    case Where(t, args) => NamedOnly(n, t) && NamedOnlySeq(n, args)
  }

  predicate NamedOnlySeq(n: string, es: seq<Expr>)
    decreases es, 0
  {
    es == [] || (NamedOnly(n, es[0]) && NamedOnlySeq(n, es[1..]))
  }

  lemma {:induction false} AccountedIsNamed(n: string, e: Expr)
    requires Accounted(n, e) && DeepKey(n) == None
    ensures NamedOnly(n, e)
    decreases e, 0
  {
    match e
    case Lit(_) =>
    case Ident(_) =>
    case Select(o, _) => if !IsIdent(o, n) { AccountedIsNamed(n, o); }
    case Index(o, k) => if !(n == VARS && IsVarsLiteralIndex(e)) { AccountedIsNamed(n, o); AccountedIsNamed(n, k); }
    case Has(x) => AccountedIsNamed(n, x);
    case Default(x, y) => AccountedIsNamed(n, x); AccountedIsNamed(n, y);
    case Node(_, kids) => AccountedIsNamedSeq(n, kids);
    case Compr(_, t, _, bodies) => AccountedIsNamed(n, t); AccountedIsNamedSeq(n, bodies);
    case Where(t, args) => AccountedIsNamed(n, t); AccountedIsNamedSeq(n, args);
  }

  lemma {:induction false} AccountedIsNamedSeq(n: string, es: seq<Expr>)
    requires AccountedSeq(n, es) && DeepKey(n) == None
    ensures NamedOnlySeq(n, es)
    decreases es, 0
  {
    if es != [] {
      AccountedIsNamed(n, es[0]);
      AccountedIsNamedSeq(n, es[1..]);
    }
  }

  // ---- Two activations that differ in secrets -------------------------------------------------

  /** Maps that agree on every key that is not a tainted field of the base, nor the one left out. */
  ghost predicate MapsAgree(base: string, sources: Sources, but: Option<string>, x: map<Key, Value>,
                            y: map<Key, Value>) {
    forall k: Key :: !(k.KStr? && (FieldAddr(base, k.ks) in sources.fields || but == Some(k.ks))) ==>
      (k in x <==> k in y) && (k in x ==> x[k] == y[k])
  }

  ghost predicate SameUntaintedDeep(n: string, sources: Sources, a: Activation, b: Activation) {
    && BothMaps(n, a, b) && MapsAgree(n, sources, DeepKey(n), a[n].m, b[n].m)
    && (DeepKey(n).Some? ==>
          var x, y := SelectOf(Val(a[n]), DeepKey(n).value), SelectOf(Val(b[n]), DeepKey(n).value);
          x == y || (IsMap(x) && IsMap(y) && MapsAgree(DeepBase(n), sources, None, x.v.m, y.v.m)))
  }

  /** a and b differ only in secrets: bindings tainted whole, tainted fields of the listed roots, and
      tainted fields one level down. */
  ghost predicate DifferInDeepSecrets(roots: set<string>, sources: Sources, a: Activation, b: Activation) {
    forall n :: n in sources.roots || SameName(n, a, b) || (n in roots && SameUntaintedDeep(n, sources, a, b))
  }

  ghost predicate CleanNames(names: set<string>, sources: Sources) {
    forall n :: n in names ==> n !in sources.roots
  }

  ghost predicate CleanAddrs(addrs: set<(string, string)>, sources: Sources) {
    forall x :: x in addrs ==> !ReadsSecretAddr(x.0, x.1, sources)
  }

  ghost predicate ReadsNoSecret(e: Expr, sources: Sources) {
    CleanNames(Idents(e), sources) && CleanAddrs(Addrs(e), sources)
  }

  ghost predicate ReadsNoSecretSeq(es: seq<Expr>, sources: Sources) {
    CleanNames(IdentsSeq(es), sources) && CleanAddrs(AddrsSeq(es), sources)
  }

  lemma FieldAgrees(n: string, f: string, sources: Sources, a: Activation, b: Activation)
    requires SameUntaintedDeep(n, sources, a, b) && !ReadsSecretAddr(n, f, sources) && DeepKey(n) != Some(f)
    ensures AgreeField(n, f, a, b)
  {
    var k := KStr(f);
    assert !(k.KStr? && (FieldAddr(n, k.ks) in sources.fields || DeepKey(n) == Some(k.ks)));
  }

  lemma DeepFieldAgrees(n: string, f: string, sources: Sources, a: Activation, b: Activation)
    requires SameUntaintedDeep(n, sources, a, b) && DeepKey(n).Some? && !ReadsSecretAddr(DeepBase(n), f, sources)
    ensures AgreeDeep(n, DeepKey(n).value, f, a, b)
  {
    var k := KStr(f);
    assert !(k.KStr? && FieldAddr(DeepBase(n), k.ks) in sources.fields);
  }

  lemma {:induction false} NamedReadsAgree(e: Expr, sources: Sources, roots: set<string>, a: Activation, b: Activation)
    requires ReadsNoSecret(e, sources) && DifferInDeepSecrets(roots, sources, a, b)
    requires forall n :: n in roots ==> NamedOnly(n, e)
    ensures Agreed(e, a, b)
    decreases e, 1
  {
    match e
    case Lit(_) =>
    case Ident(n) => assert n in Idents(e);
    case Select(o, f) => NamedSelectAgrees(o, f, sources, roots, a, b);
    case Index(o, k) =>
      if IsKeyRead(e) { NamedIndexAgrees(e, sources, roots, a, b); }
      else {
        NotVarsIndex(e, roots);
        NamedReadsAgree(o, sources, roots, a, b);
        NamedReadsAgree(k, sources, roots, a, b);
      }
    case Has(x) => NamedReadsAgree(x, sources, roots, a, b);
    case Default(x, y) => NamedReadsAgree(x, sources, roots, a, b); NamedReadsAgree(y, sources, roots, a, b);
    case Node(_, kids) => NamedReadsAgreeSeq(kids, sources, roots, a, b);
    case Compr(_, t, _, bodies) =>
      NamedReadsAgree(t, sources, roots, a, b);
      NamedReadsAgreeSeq(bodies, sources, roots, a, b);
    case Where(_, _) =>
  }

  lemma NotVarsIndex(e: Expr, roots: set<string>)
    requires e.Index? && !IsKeyRead(e) && forall n :: n in roots ==> NamedOnly(n, e)
    ensures forall n :: n in roots ==> NamedOnly(n, e.operand) && NamedOnly(n, e.key)
  {
  }

  /** An index by a literal: on `vars` a field read, on any other root a read of the whole. */
  lemma NamedIndexAgrees(e: Expr, sources: Sources, roots: set<string>, a: Activation, b: Activation)
    requires e.Index? && IsKeyRead(e) && ReadsNoSecret(e, sources) && DifferInDeepSecrets(roots, sources, a, b)
    requires forall n :: n in roots ==> NamedOnly(n, e)
    ensures AgreeField(e.operand.name, e.key.v.s, a, b)
  {
    var n := e.operand.name;
    assert n in Idents(e.operand) && n in Idents(e);
    if !SameName(n, a, b) {
      assert n in roots && NamedOnly(n, e) && !NamedOnly(n, e.operand);
      assert (VARS, e.key.v.s) in IndexAddr(e) && (VARS, e.key.v.s) in Addrs(e);
      FieldAgrees(n, e.key.v.s, sources, a, b);
    }
  }

  lemma {:induction false} NamedSelectAgrees(o: Expr, f: string, sources: Sources, roots: set<string>, a: Activation,
                                             b: Activation)
    requires ReadsNoSecret(Select(o, f), sources) && DifferInDeepSecrets(roots, sources, a, b)
    requires forall n :: n in roots ==> NamedOnly(n, Select(o, f))
    ensures Agreed(Select(o, f), a, b)
    decreases o, 2
  {
    var e := Select(o, f);
    if o.Ident? {
      NamedFieldAgrees(o.name, f, sources, roots, a, b);
    } else if IsKeyRead(o) {
      NamedDeepAgrees(o, f, sources, roots, a, b);
    } else {
      assert forall n :: n in roots ==> NamedOnly(n, o);
      NamedReadsAgree(o, sources, roots, a, b);
    }
  }

  lemma NamedFieldAgrees(n: string, f: string, sources: Sources, roots: set<string>, a: Activation, b: Activation)
    requires ReadsNoSecret(Select(Ident(n), f), sources) && DifferInDeepSecrets(roots, sources, a, b)
    requires n in roots ==> NamedOnly(n, Select(Ident(n), f))
    ensures AgreeField(n, f, a, b)
  {
    var e := Select(Ident(n), f);
    assert n in Idents(Ident(n)) && n in Idents(e) && (n, f) in Addrs(e);
    if !SameName(n, a, b) {
      assert NamedOnly(n, e) && DeepKey(n) != Some(f);
      FieldAgrees(n, f, sources, a, b);
    }
  }

  lemma NamedDeepAgrees(o: Expr, f: string, sources: Sources, roots: set<string>, a: Activation, b: Activation)
    requires IsKeyRead(o) && ReadsNoSecret(Select(o, f), sources) && DifferInDeepSecrets(roots, sources, a, b)
    requires forall n :: n in roots ==> NamedOnly(n, Select(o, f))
    ensures AgreeDeep(o.operand.name, KeyName(o), f, a, b)
  {
    var n, e := o.operand.name, Select(o, f);
    assert n in Idents(o.operand) && n in Idents(o) && n in Idents(e);
    if !SameName(n, a, b) {
      assert n in roots && NamedOnly(n, e);
      if IsDeepRead(n, o) {
        DeepBaseIsSelectBase(n, o);
        assert (DeepBase(n), f) in Addrs(e);
        DeepFieldAgrees(n, f, sources, a, b);
      } else if o.Select? {
        assert (n, o.field) in Addrs(o) && (n, o.field) in Addrs(e);
        assert NamedOnly(n, o);
        FieldAgrees(n, o.field, sources, a, b);
      } else {
        assert NamedOnly(n, o) && !NamedOnly(n, o.operand);
        assert (VARS, o.key.v.s) in IndexAddr(o) && (VARS, o.key.v.s) in Addrs(o) && (VARS, o.key.v.s) in Addrs(e);
        FieldAgrees(n, o.key.v.s, sources, a, b);
      }
    }
  }

  lemma DeepBaseIsSelectBase(n: string, o: Expr)
    requires IsDeepRead(n, o)
    ensures SelectBase(o) == Some(DeepBase(n))
  {
  }

  lemma {:induction false} NamedReadsAgreeSeq(es: seq<Expr>, sources: Sources, roots: set<string>, a: Activation,
                                              b: Activation)
    requires ReadsNoSecretSeq(es, sources) && DifferInDeepSecrets(roots, sources, a, b)
    requires forall n :: n in roots ==> NamedOnlySeq(n, es)
    ensures AgreedSeq(es, a, b)
    decreases es, 0
  {
    if es != [] {
      NamedReadsAgree(es[0], sources, roots, a, b);
      NamedReadsAgreeSeq(es[1..], sources, roots, a, b);
    }
  }

  /** On `vars` a read that names no field is judged by itself; every other root is to be read by name. */
  predicate ReadByName(n: string, e: Expr) {
    n == VARS || (if DeepKey(n).Some? then NamedOnly(n, e) else MayNarrow(n, e) && n != STATE_ROOT)
  }

  lemma PlainIsUntainted(n: string, sources: Sources, a: Activation, b: Activation)
    requires SameUntaintedDeep(n, sources, a, b) && DeepKey(n) == None
    ensures SameUntainted(n, sources, a, b)
  {
  }

  /** The roots that have to be read by name: `vars` not where a whole read of it was let through. */
  function ToBeNamed(varsWhole: bool, roots: set<string>): set<string> {
    if varsWhole then roots - {VARS} else roots
  }

  lemma NamedWhereDue(e: Expr, roots: set<string>, n: string)
    requires n in ToBeNamed(ReadsOf(VARS, e).whole, roots) && ReadByName(n, e)
    ensures NamedOnly(n, e)
  {
    if DeepKey(n).None? {
      WholeIsExact(n, e);
      AccountedIsNamed(n, e);
    }
  }

  lemma StillDiffer(varsWhole: bool, sources: Sources, roots: set<string>, a: Activation, b: Activation)
    requires varsWhole ==> !AnyField(sources, VARS)
    requires DifferInDeepSecrets(roots, sources, a, b)
    ensures DifferInDeepSecrets(ToBeNamed(varsWhole, roots), sources, a, b)
  {
    if varsWhole {
      forall n ensures n in sources.roots || SameName(n, a, b)
                    || (n in roots - {VARS} && SameUntaintedDeep(n, sources, a, b)) {
        if n == VARS && SameUntaintedDeep(n, sources, a, b) { WholeVarsSame(n, sources, a, b); }
      }
    }
  }

  lemma WholeVarsSame(n: string, sources: Sources, a: Activation, b: Activation)
    requires n == VARS && !AnyField(sources, n) && SameUntaintedDeep(n, sources, a, b)
    ensures SameName(n, a, b)
  {
    VarsArePlain(n);
    PlainIsUntainted(n, sources, a, b);
    NothingTainted(n, sources, a, b);
  }

  lemma VarsArePlain(n: string)
    requires n == VARS
    ensures DeepKey(n) == None
  {
  }

  /** Soundness by name, one level down included: a tree judged not sealed has one value under any two
      activations that differ only in secrets, also those of `register.<name>`, `register.hosts.<name>`,
      `incarnation.<field>` and `incarnation.state.<field>`, whatever Vault answers. */
  lemma UnsealedByNameIsSecretFree(e: Expr, sources: Sources, roots: set<string>, a: Activation, b: Activation,
                                   env: Scope, p: Ops, q: Ops)
    requires !Sealed(e, sources) && SameOps(VAULT, p, q)
    requires forall n :: n in roots ==> ReadByName(n, e)
    requires DifferInDeepSecrets(roots, sources, a, b)
    ensures Eval(e, a, env, p) == Eval(e, b, env, q)
  {
    var whole := ReadsOf(VARS, e).whole;
    var named := ToBeNamed(whole, roots);
    forall n | n in named ensures NamedOnly(n, e) { NamedWhereDue(e, roots, n); }
    StillDiffer(whole, sources, roots, a, b);
    UnsealedReadsNoSecret(e, sources);
    NamedReadsAgree(e, sources, named, a, b);
    AgreedEvaluates(e, a, b, env, p, q);
  }

  lemma UnsealedReadsNoSecret(e: Expr, sources: Sources)
    requires !Sealed(e, sources)
    ensures ReadsNoSecret(e, sources) && CallCount(VAULT, e) == 0
  {
  }
}
