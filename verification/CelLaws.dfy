// What the evaluator's connectives and macros answer, said without their folds: which operand or which element
// decides, in both directions, and what an error elsewhere does to the answer.

module CelLaws {
  import opened Cel
  import opened Seqs
  import opened Wrappers

  ghost predicate Shows(outs: seq<Outcome>, o: Outcome) {
    exists i :: 0 <= i < |outs| && outs[i] == o
  }

  ghost predicate Uniform(outs: seq<Outcome>, o: Outcome) {
    forall i :: 0 <= i < |outs| ==> outs[i] == o
  }

  ghost predicate Truths(outs: seq<Outcome>) {
    forall i :: 0 <= i < |outs| ==> outs[i] == TRUE || outs[i] == FALSE
  }

  /** True at i and nowhere else. */
  ghost predicate OnlyAt(outs: seq<Outcome>, i: int) {
    0 <= i < |outs| && outs[i] == TRUE && forall j :: 0 <= j < |outs| && j != i ==> outs[j] == FALSE
  }

  ghost predicate Single(outs: seq<Outcome>) {
    exists i :: OnlyAt(outs, i)
  }

  lemma HeadShows(outs: seq<Outcome>, o: Outcome)
    requires outs != []
    ensures Shows(outs, o) <==> outs[0] == o || Shows(outs[1..], o)
    ensures Uniform(outs, o) <==> outs[0] == o && Uniform(outs[1..], o)
    ensures Truths(outs) <==> (outs[0] == TRUE || outs[0] == FALSE) && Truths(outs[1..])
  {
    var rest := outs[1..];
    if Shows(rest, o) {
      var i :| 0 <= i < |rest| && rest[i] == o;
      assert outs[i + 1] == o;
    }
    if Shows(outs, o) && outs[0] != o {
      var i :| 0 <= i < |outs| && outs[i] == o;
      assert rest[i - 1] == o;
    }
    assert forall i :: 0 < i < |outs| ==> outs[i] == rest[i - 1];
  }

  lemma HeadSingle(outs: seq<Outcome>)
    requires outs != []
    ensures Single(outs) <==>
      (outs[0] == TRUE && Uniform(outs[1..], FALSE)) || (outs[0] == FALSE && Single(outs[1..]))
  {
    var rest := outs[1..];
    assert forall i :: 0 < i < |outs| ==> outs[i] == rest[i - 1];
    if outs[0] == TRUE && Uniform(rest, FALSE) {
      assert OnlyAt(outs, 0);
    }
    if outs[0] == FALSE && Single(rest) {
      var i :| OnlyAt(rest, i);
      assert OnlyAt(outs, i + 1);
    }
    if Single(outs) {
      var i :| OnlyAt(outs, i);
      if i > 0 {
        assert OnlyAt(rest, i - 1);
      } else {
        assert Uniform(rest, FALSE);
      }
    }
  }

  /** An operand that decides a connective does so whatever the other one is, an error included. */
  lemma ConnectivesExactly(a: Expr, b: Expr, act: Activation, env: Scope, ops: Ops)
    ensures var l, r := Eval(a, act, env, ops), Eval(b, act, env, ops);
      var both, either := Eval(Node(AndOp, [a, b]), act, env, ops), Eval(Node(OrOp, [a, b]), act, env, ops);
      && (both == FALSE <==> l == FALSE || r == FALSE) && (both == TRUE <==> l == TRUE && r == TRUE)
      && (either == TRUE <==> l == TRUE || r == TRUE) && (either == FALSE <==> l == FALSE && r == FALSE)
      && both in {TRUE, FALSE, Err} && either in {TRUE, FALSE, Err}
  {
    EvalSeqOne(b, act, env, ops);
    Pair(a, b);
    EvalSeqCons(a, [b], act, env, ops);
    Pair(Eval(a, act, env, ops), Eval(b, act, env, ops));
    NodeEvaluates(AndOp, [a, b], [Eval(a, act, env, ops), Eval(b, act, env, ops)], act, env, ops);
    NodeEvaluates(OrOp, [a, b], [Eval(a, act, env, ops), Eval(b, act, env, ops)], act, env, ops);
  }

  lemma {:induction false} FoldsExactly(outs: seq<Outcome>)
    ensures AllOf(outs) == FALSE <==> Shows(outs, FALSE)
    ensures AllOf(outs) == TRUE <==> Uniform(outs, TRUE)
    ensures AnyOf(outs) == TRUE <==> Shows(outs, TRUE)
    ensures AnyOf(outs) == FALSE <==> Uniform(outs, FALSE)
    ensures AllOf(outs) in {TRUE, FALSE, Err} && AnyOf(outs) in {TRUE, FALSE, Err}
  {
    if outs != [] {
      FoldsExactly(outs[1..]);
      HeadShows(outs, TRUE);
      HeadShows(outs, FALSE);
    }
  }

  lemma {:induction false} KeepsExactly(ps: seq<Outcome>, xs: seq<Value>)
    requires |ps| == |xs|
    ensures Keep(ps, Outcomes(xs)).Some? <==> Truths(ps)
    ensures Truths(ps) ==> (Keep(ps, Outcomes(xs)).value == [] <==> Uniform(ps, FALSE))
    ensures Truths(ps) ==> (|Keep(ps, Outcomes(xs)).value| == 1 <==> Single(ps))
  {
    if ps != [] {
      KeepsExactly(ps[1..], xs[1..]);
      assert Outcomes(xs)[1..] == Outcomes(xs[1..]);
      HeadShows(ps, FALSE);
      HeadSingle(ps);
    }
  }

  /** What the body yields on each element. */
  lemma RowMeans(x: string, p: Expr, xs: seq<Value>, row: seq<Outcome>, act: Activation, env: Scope, ops: Ops)
    requires |row| == |xs|
    requires forall i :: 0 <= i < |xs| ==> row[i] == Eval(p, act, env[x := xs[i]], ops)
    ensures EvalBodies([p], x, xs, act, env, ops) == [row]
  {
    var none: seq<Expr> := [];
    assert [p][1..] == none;
    EvalEachAt(p, x, xs, act, env, ops);
    assert EvalEach(p, x, xs, act, env, ops) == row;
  }

  /** all() is refuted by one element that fails it and exists() is met by one that meets it, errors on the
      others notwithstanding, and each answers the other way only where every element does; exists_one() needs a
      truth of every element. */
  lemma QuantifiersExactly(t: Expr, x: string, p: Expr, xs: seq<Value>, row: seq<Outcome>, act: Activation,
                           env: Scope, ops: Ops)
    requires Elements(Eval(t, act, env, ops), ops) == Some(xs) && |row| == |xs|
    requires forall i :: 0 <= i < |xs| ==> row[i] == Eval(p, act, env[x := xs[i]], ops)
    ensures var every := Eval(Compr(All, t, x, [p]), act, env, ops);
      (every == FALSE <==> Shows(row, FALSE)) && (every == TRUE <==> Uniform(row, TRUE))
      && every in {TRUE, FALSE, Err}
    ensures var any := Eval(Compr(Exists, t, x, [p]), act, env, ops);
      (any == TRUE <==> Shows(row, TRUE)) && (any == FALSE <==> Uniform(row, FALSE)) && any in {TRUE, FALSE, Err}
    ensures var one := Eval(Compr(ExistsOne, t, x, [p]), act, env, ops);
      (one == TRUE <==> Truths(row) && Single(row)) && (one == Err <==> !Truths(row)) && one in {TRUE, FALSE, Err}
  {
    RowMeans(x, p, xs, row, act, env, ops);
    ComprEvaluates(All, t, x, [p], xs, act, env, ops);
    ComprEvaluates(Exists, t, x, [p], xs, act, env, ops);
    ComprEvaluates(ExistsOne, t, x, [p], xs, act, env, ops);
    FoldsExactly(row);
    KeepsExactly(row, xs);
  }
}
