/** A decided value printed as CEL: `predicateRenderer.literal` and what it evaluates back to. */
module Literals {
  import opened Cel
  import opened Wrappers
  import opened Ordering

  // ---- The order map keys are printed in --------------------------------------------------

  function KeyRank(k: Key): nat {
    match k
    case KBool(_) => 0
    case KInt(_) => 1
    case KUint(_) => 2
    case KStr(_) => 3
  }

  /** By type, then value: bool < int < uint < string. */
  predicate KeyLess(a: Key, b: Key) {
    if KeyRank(a) != KeyRank(b) then KeyRank(a) < KeyRank(b)
    else
      match a
      case KBool(x) => !x && b.kb
      case KInt(x) => x < b.ki
      case KUint(x) => x < b.ku
      case KStr(x) => StrLess(x, b.ks)
  }

  lemma KeyLessTotal()
    ensures StrictTotal(KeyLess)
  {
    StrLessTotal();
    forall a: Key ensures !KeyLess(a, a) {
      if a.KStr? { StrLessIrreflexive(a.ks); }
    }
    forall a: Key, b: Key, c: Key | KeyLess(a, b) && KeyLess(b, c) ensures KeyLess(a, c) {
      if a.KStr? && c.KStr? { StrLessTransitive(a.ks, b.ks, c.ks); }
    }
    forall a: Key, b: Key | a != b ensures KeyLess(a, b) || KeyLess(b, a) {
      if a.KStr? && b.KStr? { StrLessConnected(a.ks, b.ks); }
    }
  }

  /** bool before int before uint before string; of one type, false before true, the smaller number, and
      of two strings the beginning of the other or the smaller where they first differ. */
  ghost predicate PrintsBefore(a: Key, b: Key) {
    match (a, b)
    case (KBool(x), KBool(y)) => !x && y
    case (KBool(_), _) => true
    case (_, KBool(_)) => false
    case (KInt(x), KInt(y)) => x < y
    case (KInt(_), _) => true
    case (_, KInt(_)) => false
    case (KUint(x), KUint(y)) => x < y
    case (KUint(_), _) => true
    case (_, KUint(_)) => false
    case (KStr(x), KStr(y)) => Before(x, y)
  }

  lemma KeyLessMeans(a: Key, b: Key)
    ensures KeyLess(a, b) <==> PrintsBefore(a, b)
  {
    if a.KStr? && b.KStr? { StrLessMeans(a.ks, b.ks); }
  }

  ghost function SortedKeys(m: map<Key, Value>): (ks: seq<Key>)
    ensures forall k :: k in ks <==> k in m
    ensures Ascending(ks, KeyLess) && forall i, j :: 0 <= i < j < |ks| ==> ks[i] != ks[j]
  {
    KeyLessTotal();
    Sorted(m.Keys, KeyLess)
  }

  // ---- Literals ---------------------------------------------------------------------------

  function KeyValue(k: Key): Value {
    match k
    case KBool(b) => VBool(b)
    case KInt(i) => VInt(i)
    case KUint(u) => VUint(u)
    case KStr(s) => VStr(s)
  }

  /** Whether text can carry the value; `literal` refuses the rendering otherwise. */
  ghost predicate Carries(v: Value) {
    match v
    case VList(xs) => forall i :: 0 <= i < |xs| ==> Carries(xs[i])
    case VMap(m) => forall k :: k in m ==> Carries(m[k])
    case VOther(_) => false
    case _ => true
  }

  /** Somewhere in the value stands one that has no literal. */
  ghost predicate HoldsOther(v: Value) {
    match v
    case VOther(_) => true
    case VList(xs) => exists i :: 0 <= i < |xs| && HoldsOther(xs[i])
    case VMap(m) => exists k :: k in m && HoldsOther(m[k])
    case _ => false
  }

  lemma {:induction false} CarriesExactly(v: Value)
    ensures Carries(v) <==> !HoldsOther(v)
    decreases v
  {
    match v
    case VList(xs) =>
      forall i | 0 <= i < |xs| ensures Carries(xs[i]) <==> !HoldsOther(xs[i]) { CarriesExactly(xs[i]); }
    case VMap(m) => forall k | k in m ensures Carries(m[k]) <==> !HoldsOther(m[k]) { CarriesExactly(m[k]); }
    case _ =>
  }

  ghost function Literal(v: Value): Expr
    decreases v, 1, 0
  {
    match v
    case VList(xs) => Node(ListOp, LiteralSeq(xs))
    case VMap(m) => Node(MapOp, LiteralEntries(v, SortedKeys(m)))
    case VOther(_) => Lit(VNull)
    case _ => Lit(v)
  }

  ghost function LiteralSeq(xs: seq<Value>): seq<Expr>
    decreases xs, 1, 0
  {
    if xs == [] then [] else [Literal(xs[0])] + LiteralSeq(xs[1..])
  }

  ghost function LiteralEntries(v: Value, ks: seq<Key>): seq<Expr>
    requires v.VMap? && forall k :: k in ks ==> k in v.m
    decreases v, 0, |ks|
  {
    if ks == [] then []
    else
      assert ks[0] in ks;
      [Lit(KeyValue(ks[0])), Literal(v.m[ks[0]])] + LiteralEntries(v, ks[1..])
  }

  /** A literal reads back as the value it was printed from, wherever it stands. */
  lemma {:induction false} LiteralReadsBack(v: Value, act: Activation, env: Scope, ops: Ops)
    requires Carries(v)
    ensures Eval(Literal(v), act, env, ops) == Val(v)
    decreases v, 2
  {
    match v
    case VList(xs) => LiteralSeqReadsBack(xs, act, env, ops);
    case VMap(m) => MapReadsBack(v, act, env, ops);
    case _ =>
  }

  lemma {:induction false} MapReadsBack(v: Value, act: Activation, env: Scope, ops: Ops)
    requires v.VMap? && Carries(v)
    ensures Eval(Literal(v), act, env, ops) == Val(v)
    decreases v, 1
  {
    var ks := SortedKeys(v.m);
    EntriesReadBack(v, ks, act, env, ops);
    EveryKey(v.m, ks);
    MapEvaluates(LiteralEntries(v, ks), v.m, act, env, ops);
  }

  lemma MapEvaluates(kids: seq<Expr>, m: map<Key, Value>, act: Activation, env: Scope, ops: Ops)
    requires var kvs := Strict(EvalSeq(kids, act, env, ops)); kvs.Some? && BuildMap(kvs.value) == Some(m)
    ensures Eval(Node(MapOp, kids), act, env, ops) == Val(VMap(m))
  {
    NodeEvaluates(MapOp, kids, EvalSeq(kids, act, env, ops), act, env, ops);
  }

  lemma EveryKey(m: map<Key, Value>, ks: seq<Key>)
    requires forall k :: k in ks <==> k in m
    ensures (map k | k in ks :: m[k]) == m
  {
  }

  lemma {:induction false} LiteralSeqReadsBack(xs: seq<Value>, act: Activation, env: Scope, ops: Ops)
    requires forall i :: 0 <= i < |xs| ==> Carries(xs[i])
    ensures Strict(EvalSeq(LiteralSeq(xs), act, env, ops)) == Some(xs)
    decreases xs, 1, 0
  {
    if xs != [] {
      LiteralReadsBack(xs[0], act, env, ops);
      LiteralSeqReadsBack(xs[1..], act, env, ops);
      EvalSeqCons(Literal(xs[0]), LiteralSeq(xs[1..]), act, env, ops);
      StrictCons(xs[0], EvalSeq(LiteralSeq(xs[1..]), act, env, ops));
      assert xs == [xs[0]] + xs[1..];
    }
  }

  lemma {:induction false} EntriesReadBack(v: Value, ks: seq<Key>, act: Activation, env: Scope, ops: Ops)
    requires v.VMap? && (forall k :: k in ks ==> k in v.m) && Carries(v)
    requires forall i, j :: 0 <= i < j < |ks| ==> ks[i] != ks[j]
    ensures var kvs := Strict(EvalSeq(LiteralEntries(v, ks), act, env, ops));
            kvs.Some? && BuildMap(kvs.value) == Some(map k | k in ks :: v.m[k])
    decreases v, 0, |ks|
  {
    if ks != [] {
      assert ks[0] in ks;
      var w := v.m[ks[0]];
      LiteralReadsBack(w, act, env, ops);
      EntriesReadBack(v, ks[1..], act, env, ops);
      var outs := EvalSeq(LiteralEntries(v, ks[1..]), act, env, ops);
      EntryOutcomes(Lit(KeyValue(ks[0])), Literal(w), LiteralEntries(v, ks[1..]), act, env, ops);
      StrictTwo(KeyValue(ks[0]), w, outs);
      BuildMapCons(ks[0], w, Strict(outs).value);
      assert (map k | k in ks :: v.m[k]) == (map k | k in ks[1..] :: v.m[k])[ks[0] := w];
    }
  }

  lemma StrictTwo(k: Value, w: Value, outs: seq<Outcome>)
    requires Strict(outs).Some?
    ensures Strict([Val(k), Val(w)] + outs) == Some([k, w] + Strict(outs).value)
  {
    StrictCons(w, outs);
    StrictCons(k, [Val(w)] + outs);
    assert [Val(k), Val(w)] + outs == [Val(k)] + ([Val(w)] + outs);
    assert [k] + ([w] + Strict(outs).value) == [k, w] + Strict(outs).value;
  }

  lemma EntryOutcomes(key: Expr, val: Expr, rest: seq<Expr>, act: Activation, env: Scope, ops: Ops)
    ensures EvalSeq([key, val] + rest, act, env, ops)
         == [Eval(key, act, env, ops), Eval(val, act, env, ops)] + EvalSeq(rest, act, env, ops)
  {
    assert [key, val] + rest == [key] + ([val] + rest);
    EvalSeqCons(key, [val] + rest, act, env, ops);
    EvalSeqCons(val, rest, act, env, ops);
  }

  lemma BuildMapCons(k: Key, w: Value, kvs: seq<Value>)
    requires BuildMap(kvs).Some? && k !in BuildMap(kvs).value
    ensures BuildMap([KeyValue(k), w] + kvs) == Some(BuildMap(kvs).value[k := w])
  {
    assert ([KeyValue(k), w] + kvs)[2..] == kvs;
  }

  /** At i the key, and its value after it. */
  ghost predicate Entry(kids: seq<Expr>, i: nat, k: Key, value: Expr) {
    i + 1 < |kids| && kids[i] == Lit(KeyValue(k)) && kids[i + 1] == value
  }

  lemma {:induction false} EntryAt(v: Value, ks: seq<Key>, i: nat)
    requires v.VMap? && (forall k :: k in ks ==> k in v.m) && i < |ks|
    ensures Entry(LiteralEntries(v, ks), 2 * i, ks[i], Literal(v.m[ks[i]]))
    decreases i
  {
    if i > 0 {
      EntryAt(v, ks[1..], i - 1);
      assert ks[1..][i - 1] == ks[i];
    }
  }

  lemma MapIsPrinted(v: Value)
    requires v.VMap?
    ensures Literal(v) == Node(MapOp, LiteralEntries(v, SortedKeys(v.m)))
  {
  }

  /** A map is printed with its keys in order, each before its own value. */
  lemma MapPrintsInOrder(v: Value, k: Key, l: Key) returns (kids: seq<Expr>, i: nat, j: nat)
    requires v.VMap? && k in v.m && l in v.m && PrintsBefore(k, l)
    ensures Literal(v) == Node(MapOp, kids) && i + 1 < j
    ensures Entry(kids, i, k, Literal(v.m[k])) && Entry(kids, j, l, Literal(v.m[l]))
  {
    var ks := SortedKeys(v.m);
    var a, b := KeyPositions(v.m, ks, k, l);
    MapIsPrinted(v);
    kids, i, j := LiteralEntries(v, ks), 2 * a, 2 * b;
    EntryAt(v, ks, a);
    EntryAt(v, ks, b);
  }

  lemma KeyPositions(m: map<Key, Value>, ks: seq<Key>, k: Key, l: Key) returns (a: nat, b: nat)
    requires ks == SortedKeys(m) && k in m && l in m && PrintsBefore(k, l)
    ensures a < b < |ks| && ks[a] == k && ks[b] == l
  {
    a :| 0 <= a < |ks| && ks[a] == k;
    b :| 0 <= b < |ks| && ks[b] == l;
    KeyLessMeans(k, l);
    KeyLessTotal();
    assert Ascending(ks, KeyLess) && KeyLess(k, l) && !KeyLess(l, k) && !KeyLess(k, k);
  }

  /** A literal mentions no identifier at all. */
  lemma {:induction false} LiteralMentionsNothing(v: Value)
    ensures Mentions(Literal(v)) == {}
    decreases v, 1
  {
    match v
    case VList(xs) => LiteralSeqMentionsNothing(xs);
    case VMap(m) => MapMentionsNothing(v);
    case _ =>
  }

  lemma NodeMentions(op: Op, kids: seq<Expr>)
    ensures Mentions(Node(op, kids)) == MentionsSeq(kids)
  {
  }

  lemma {:induction false} MapMentionsNothing(v: Value)
    requires v.VMap?
    ensures Mentions(Literal(v)) == {}
    decreases v, 0
  {
    var ks := SortedKeys(v.m);
    EntriesMentionNothing(v, ks);
    NodeMentions(MapOp, LiteralEntries(v, ks));
  }

  lemma {:induction false} LiteralSeqMentionsNothing(xs: seq<Value>)
    ensures MentionsSeq(LiteralSeq(xs)) == {}
    decreases xs, 1
  {
    if xs != [] {
      LiteralMentionsNothing(xs[0]);
      LiteralSeqMentionsNothing(xs[1..]);
      assert LiteralSeq(xs)[1..] == LiteralSeq(xs[1..]);
    }
  }

  lemma {:induction false} EntriesMentionNothing(v: Value, ks: seq<Key>)
    requires v.VMap? && forall k :: k in ks ==> k in v.m
    ensures MentionsSeq(LiteralEntries(v, ks)) == {}
    decreases v, -1, |ks|
  {
    if ks != [] {
      assert ks[0] in ks;
      LiteralMentionsNothing(v.m[ks[0]]);
      EntriesMentionNothing(v, ks[1..]);
      var es, rest := LiteralEntries(v, ks), LiteralEntries(v, ks[1..]);
      assert es[1..] == [Literal(v.m[ks[0]])] + rest;
      assert es[1..][1..] == rest;
    }
  }
}
