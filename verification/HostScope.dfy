/** Contexts with no host bound: the guard that refuses a per-host reference, and what passing it
    guarantees.
 */
module HostScope {
  import opened Cel
  import opened Wrappers
  import opened Reads
  import opened Ordering

  const SELF := "self"

  datatype Context =
    | HostBound
    | LoopAxis | CovenList | Keeper | Compute | StateMatch | StaticWhen | IncludeWhen | TemplatePath

  /** A context's host-boundness, with the input and vars names that render per host in this run. */
  datatype Stance = Stance(scope: Context, variantInputs: seq<string>, variantVars: seq<string>)

  datatype Verdict =
    | Accepted
    | SelfRead(whole: bool)             // soulprint.self, or a read of soulprint that may include it
    | WholeRead(root: string)           // a whole read of a root that carries per-host names
    | FieldRead(root: string, name: string)

  // ---- The guard --------------------------------------------------------------------------

  function Hits(names: seq<string>, fields: set<string>): set<string> {
    set n | n in names && n in fields
  }

  /** The verdict on one root that carries per-host names; a loop variable of its name shadows it. */
  ghost function RootVerdict(root: string, names: seq<string>, found: RootReads, loops: set<string>): Verdict {
    if names == [] || root in loops then Accepted
    else if found.whole then WholeRead(root)
    else
      var hits := Hits(names, found.fields);
      if hits == {} then Accepted
      else
        StrLessTotal();
        FieldRead(root, Least(hits, StrLess))
  }

  ghost function GuardVerdict(e: Expr, stance: Stance, loops: set<string>): Verdict {
    if stance.scope == HostBound then Accepted
    else
      var soulprint := ReadsOf(SOULPRINT, e);
      if SOULPRINT !in loops && (soulprint.whole || SELF in soulprint.fields) then SelfRead(SELF !in soulprint.fields)
      else
        var input := RootVerdict(INPUT, stance.variantInputs, ReadsOf(INPUT, e), loops);
        if input != Accepted then input
        else RootVerdict(VARS, stance.variantVars, ReadsOf(VARS, e), loops)
  }

  /** The names read, in the order listed, then the least of them: two runs report the same one. */
  method JudgeRoot(root: string, names: seq<string>, found: RootReads, loops: set<string>) returns (v: Verdict)
    ensures v == RootVerdict(root, names, found, loops)
  {
    if names == [] || root in loops { return Accepted; }
    if found.whole { return WholeRead(root); }
    var hit: seq<string> := [];
    for i := 0 to |names|
      invariant forall n :: n in hit <==> n in names[..i] && n in found.fields
    {
      if names[i] in found.fields { hit := hit + [names[i]]; }
    }
    assert names[..|names|] == names;
    ghost var hits := Hits(names, found.fields);
    assert hits == set n | n in hit;
    if hit == [] { return Accepted; }
    assert hit[0] in hits;
    var least := LeastName(hit);
    v := FieldRead(root, least);
    StrLessTotal();
    LeastUnique(least, Least(hits, StrLess), hits);
  }

  lemma LeastUnique(x: string, y: string, s: set<string>)
    requires IsLeast(x, s, StrLess) && IsLeast(y, s, StrLess)
    ensures x == y
  {
    if x != y {
      StrLessTransitive(x, y, x);
      StrLessIrreflexive(x);
    }
  }

  method LeastName(hit: seq<string>) returns (least: string)
    requires hit != []
    ensures IsLeast(least, (set n | n in hit), StrLess)
    ensures least in hit && forall n :: n in hit ==> n == least || Before(least, n)
  {
    least := hit[0];
    for i := 1 to |hit|
      invariant least in hit && NoneBelow(hit, i, least)
    {
      if StrLess(hit[i], least) {
        LessGoesOn(hit, i, least);
        least := hit[i];
      } else if hit[i] != least {
        StrLessConnected(hit[i], least);
      }
    }
    forall n | n in hit ensures n == least || Before(least, n) { StrLessMeans(least, n); }
  }

  ghost predicate NoneBelow(hit: seq<string>, i: nat, least: string) {
    forall j :: 0 <= j < i <= |hit| ==> hit[j] == least || StrLess(least, hit[j])
  }

  lemma LessGoesOn(hit: seq<string>, i: nat, least: string)
    requires i < |hit| && StrLess(hit[i], least) && NoneBelow(hit, i, least)
    ensures NoneBelow(hit, i + 1, hit[i])
  {
    forall j | 0 <= j < i ensures StrLess(hit[i], hit[j]) {
      if hit[j] != least { StrLessTransitive(hit[i], least, hit[j]); }
    }
  }

  method GuardHostScope(e: Expr, stance: Stance, loops: set<string>) returns (v: Verdict)
    ensures v == GuardVerdict(e, stance, loops)
  {
    if stance.scope == HostBound { return Accepted; }
    var found := PredicateReads(Tree(e), {SOULPRINT, INPUT, VARS});
    var soulprint := found[SOULPRINT];
    if SOULPRINT !in loops && (soulprint.whole || SELF in soulprint.fields) {
      return SelfRead(SELF !in soulprint.fields);
    }
    v := JudgeRoot(INPUT, stance.variantInputs, found[INPUT], loops);
    if v != Accepted { return; }
    v := JudgeRoot(VARS, stance.variantVars, found[VARS], loops);
  }

  // ---- What it refuses, exactly -----------------------------------------------------------

  /** Some occurrence of the root names no field, or names one of these, and no loop variable shadows it. */
  predicate Touches(root: string, names: set<string>, e: Expr, loops: set<string>) {
    names != {} && root !in loops && (!Accounted(root, e) || names * FieldsRead(root, e) != {})
  }

  /** What the guard answers, read off the tree: the first root that is touched decides, a whole read
      before any field, and of the fields the one that comes before the others. */
  ghost predicate Answers(v: Verdict, e: Expr, stance: Stance, loops: set<string>) {
    if stance.scope == HostBound then v == Accepted
    else if Touches(SOULPRINT, {SELF}, e, loops) then v == SelfRead(SELF !in FieldsRead(SOULPRINT, e))
    else if Touches(INPUT, NamesIn(stance.variantInputs), e, loops) then Names(v, INPUT, stance.variantInputs, e)
    else if Touches(VARS, NamesIn(stance.variantVars), e, loops) then Names(v, VARS, stance.variantVars, e)
    else v == Accepted
  }

  ghost predicate Names(v: Verdict, root: string, names: seq<string>, e: Expr) {
    if !Accounted(root, e) then v == WholeRead(root)
    else
      && v.FieldRead? && v.root == root && v.name in names && v.name in FieldsRead(root, e)
      && forall n :: n in names && n in FieldsRead(root, e) ==> n == v.name || Before(v.name, n)
  }

  lemma GuardAnswers(e: Expr, stance: Stance, loops: set<string>)
    ensures Answers(GuardVerdict(e, stance, loops), e, stance, loops)
  {
    WholeIsExact(SOULPRINT, e);
    var fields := FieldsRead(SOULPRINT, e);
    assert {SELF} * fields == if SELF in fields then {SELF} else {};
    RootAnswers(INPUT, stance.variantInputs, e, loops);
    RootAnswers(VARS, stance.variantVars, e, loops);
  }

  lemma RootAnswers(root: string, names: seq<string>, e: Expr, loops: set<string>)
    requires root != REGISTER && root != STATE_ROOT
    ensures var v := RootVerdict(root, names, ReadsOf(root, e), loops);
      if Touches(root, NamesIn(names), e, loops) then v != Accepted && Names(v, root, names, e) else v == Accepted
  {
    WholeIsExact(root, e);
    var hits := Hits(names, FieldsRead(root, e));
    assert hits == NamesIn(names) * FieldsRead(root, e);
    if names != [] { assert names[0] in NamesIn(names); }
    if hits != {} {
      StrLessTotal();
      var least := Least(hits, StrLess);
      forall n | n in hits ensures n == least || Before(least, n) { StrLessMeans(least, n); }
    }
  }

  // ---- What passing it guarantees ---------------------------------------------------------

  /** Both bind root to a map, and the maps agree off these fields. */
  ghost predicate AgreeOff(root: string, off: set<string>, a: Activation, b: Activation) {
    && root in a && a[root].VMap? && root in b && b[root].VMap?
    && forall k: Key :: !(k.KStr? && k.ks in off) ==>
        (k in a[root].m <==> k in b[root].m) && (k in a[root].m ==> a[root].m[k] == b[root].m[k])
  }

  function NamesIn(names: seq<string>): set<string> { set n | n in names }

  /** Two hosts' contexts: they differ in `soulprint.self` and in the names that render per host. */
  ghost predicate SameButForHost(stance: Stance, a: Activation, b: Activation) {
    && AgreeOff(SOULPRINT, {SELF}, a, b)
    && AgreeOff(INPUT, NamesIn(stance.variantInputs), a, b)
    && AgreeOff(VARS, NamesIn(stance.variantVars), a, b)
    && forall n :: n != SOULPRINT && n != INPUT && n != VARS ==> SameName(n, a, b)
  }

  lemma OffFieldsUnread(root: string, off: set<string>, e: Expr, a: Activation, b: Activation)
    requires root != REGISTER && root != STATE_ROOT
    requires AgreeOff(root, off, a, b)
    requires off == {} || (!ReadsOf(root, e).whole && off !! ReadsOf(root, e).fields)
    ensures Indistinct(root, Accounted(root, e), FieldsRead(root, e), a, b)
  {
    if off == {} {
      assert a[root].m == b[root].m by {
        assert forall k: Key :: k in a[root].m <==> k in b[root].m;
      }
      assert SameName(root, a, b);
    } else {
      WholeIsExact(root, e);
      forall f | f in FieldsRead(root, e) ensures SelectOf(Val(a[root]), f) == SelectOf(Val(b[root]), f) {
        assert f !in off;
        var k := KStr(f);
        assert !(k.KStr? && k.ks in off);
      }
    }
  }

  lemma AcceptedRoot(root: string, names: seq<string>, e: Expr, loops: set<string>)
    requires RootVerdict(root, names, ReadsOf(root, e), loops) == Accepted && root !in loops
    ensures NamesIn(names) == {} || (!ReadsOf(root, e).whole && NamesIn(names) !! ReadsOf(root, e).fields)
  {
    var fields := ReadsOf(root, e).fields;
    if names == [] {
      assert NamesIn(names) == {};
    } else {
      forall n | n in NamesIn(names) ensures n !in fields {
        assert n in names && n !in Hits(names, fields);
      }
    }
  }

  /** Host invariance: an expression the guard accepts in a host-free context evaluates alike on any
      two hosts, so deciding it once decides it for all of them. The loop variables, which shadow a
      root of their name, are bound over each host's context. */
  lemma HostFreeIsInvariant(e: Expr, stance: Stance, loop: Activation, a: Activation, b: Activation, env: Scope,
                            ops: Ops)
    requires stance.scope != HostBound
    requires GuardVerdict(e, stance, loop.Keys) == Accepted
    requires SameButForHost(stance, a, b)
    ensures Eval(e, a + loop, env, ops) == Eval(e, b + loop, env, ops)
  {
    var x, y := a + loop, b + loop;
    forall n ensures Indistinct(n, Accounted(n, e), FieldsRead(n, e), x, y) {
      if n in loop {
        assert SameName(n, x, y);
      } else if n == SOULPRINT {
        OffFieldsUnread(n, {SELF}, e, x, y);
      } else if n == INPUT {
        AcceptedRoot(n, stance.variantInputs, e, loop.Keys);
        OffFieldsUnread(n, NamesIn(stance.variantInputs), e, x, y);
      } else if n == VARS {
        AcceptedRoot(n, stance.variantVars, e, loop.Keys);
        OffFieldsUnread(n, NamesIn(stance.variantVars), e, x, y);
      } else {
        assert SameName(n, a, b);
      }
    }
    NoOracleNoCalls(e);
    ReadsDetermineValue(e, x, y, env, {}, ops, ops);
  }

  /** The verdict depends on the stance only through host-freeness and the names listed: the
      host-free contexts accept the same expressions. */
  lemma HostFreeStancesAgree(e: Expr, s: Stance, s': Stance, loops: set<string>)
    requires s.scope != HostBound && s'.scope != HostBound
    requires s.variantInputs == s'.variantInputs && s.variantVars == s'.variantVars
    ensures GuardVerdict(e, s, loops) == GuardVerdict(e, s', loops)
  {
  }
}
