/** Strict total orders, and the one ascending enumeration of a finite set.

    Map keys are sorted before they are printed in two places of the system: the literals of a
    rendered predicate and canonical JSON. Both rest on the same fact, proved here: whatever order
    a map hands out its keys in, sorting them gives one sequence.
 */
module Ordering {

  ghost predicate StrictTotal<T(!new)>(less: (T, T) -> bool) {
    && (forall a :: !less(a, a))
    && (forall a, b, c :: less(a, b) && less(b, c) ==> less(a, c))
    && (forall a, b :: a != b ==> less(a, b) || less(b, a))
  }

  ghost predicate IsLeast<T(!new)>(x: T, s: set<T>, less: (T, T) -> bool) {
    x in s && forall y :: y in s && y != x ==> less(x, y)
  }

  lemma {:induction false} LeastExists<T(!new)>(s: set<T>, less: (T, T) -> bool)
    requires s != {} && StrictTotal(less)
    ensures exists x :: IsLeast(x, s, less)
    decreases |s|
  {
    var x :| x in s;
    var rest := s - {x};
    if rest == {} {
      assert s == {x};
      assert IsLeast(x, s, less);
    } else {
      assert |rest| < |s|;
      LeastExists(rest, less);
      var m :| IsLeast(m, rest, less);
      if less(x, m) {
        forall y | y in s && y != x ensures less(x, y) {
          if y != m { assert less(m, y); }
        }
        assert IsLeast(x, s, less);
      } else {
        assert IsLeast(m, s, less);
      }
    }
  }

  ghost function Least<T(!new)>(s: set<T>, less: (T, T) -> bool): (x: T)
    requires s != {} && StrictTotal(less)
    ensures IsLeast(x, s, less)
  {
    LeastExists(s, less);
    var x :| IsLeast(x, s, less);
    x
  }

  ghost predicate Ascending<T(!new)>(xs: seq<T>, less: (T, T) -> bool) {
    forall i, j :: 0 <= i < j < |xs| ==> less(xs[i], xs[j])
  }

  /** An element put between those below it and those above. */
  lemma InsertedAscends<T(!new)>(xs: seq<T>, x: T, i: nat, less: (T, T) -> bool)
    requires Ascending(xs, less) && i <= |xs|
    requires (forall j :: 0 <= j < i ==> less(xs[j], x)) && (forall j :: i <= j < |xs| ==> less(x, xs[j]))
    ensures var out := xs[..i] + [x] + xs[i..]; Ascending(out, less) && forall y :: y in out <==> y in xs || y == x
  {
    InsertedMembers(xs, x, i);
    InsertedAt(xs, x, i);
  }

  lemma InsertedMembers<T>(xs: seq<T>, x: T, i: nat)
    requires i <= |xs|
    ensures forall y :: y in xs[..i] + [x] + xs[i..] <==> y in xs || y == x
  {
    assert xs == xs[..i] + xs[i..];
  }

  lemma InsertedAt<T>(xs: seq<T>, x: T, i: nat)
    requires i <= |xs|
    ensures var out := xs[..i] + [x] + xs[i..];
      forall a :: 0 <= a < |out| ==> out[a] == if a < i then xs[a] else if a == i then x else xs[a - 1]
  {
  }

  /** The elements of s in ascending order. */
  ghost function Sorted<T(!new)>(s: set<T>, less: (T, T) -> bool): (xs: seq<T>)
    requires StrictTotal(less)
    ensures forall x :: x in xs <==> x in s
    ensures Ascending(xs, less)
    decreases |s|
  {
    if s == {} then []
    else
      var x := Least(s, less);
      var rest := s - {x};
      assert rest < s;
      [x] + Sorted(rest, less)
  }

  lemma NonemptyHasMember<T>(xs: seq<T>)
    ensures xs == [] || exists x :: x in xs
  {
    if xs != [] { assert xs[0] in xs; }
  }

  /** Ascending enumerations of one set are equal: the order the keys arrived in leaves no trace. */
  lemma {:induction false} AscendingUnique<T(!new)>(xs: seq<T>, ys: seq<T>, less: (T, T) -> bool)
    requires StrictTotal(less)
    requires Ascending(xs, less) && Ascending(ys, less)
    requires forall x :: x in xs <==> x in ys
    ensures xs == ys
    decreases |xs|
  {
    NonemptyHasMember(xs);
    NonemptyHasMember(ys);
    if xs != [] {
      assert xs[0] in xs;
      var j :| 0 <= j < |ys| && ys[j] == xs[0];
      assert ys[0] in ys;
      var i :| 0 <= i < |xs| && xs[i] == ys[0];
      assert xs[0] == ys[0];
      forall x ensures x in xs[1..] <==> x in ys[1..]
      {
        TailMembers(xs, x, less);
        TailMembers(ys, x, less);
      }
      AscendingUnique(xs[1..], ys[1..], less);
      assert xs == [xs[0]] + xs[1..];
      assert ys == [ys[0]] + ys[1..];
    }
  }

  lemma TailMembers<T(!new)>(xs: seq<T>, x: T, less: (T, T) -> bool)
    requires StrictTotal(less) && Ascending(xs, less) && xs != []
    ensures x in xs[1..] <==> x in xs && x != xs[0]
  {
    if x in xs && x != xs[0] {
      var i :| 0 <= i < |xs| && xs[i] == x;
      assert xs[1..][i - 1] == x;
    }
    if x in xs[1..] {
      var i :| 0 <= i < |xs[1..]| && xs[1..][i] == x;
      assert xs[i + 1] == x;
      assert less(xs[0], xs[i + 1]);
    }
  }

  /** Lexicographic order of strings, as Go's `<` gives it. */
  predicate StrLess(a: string, b: string) {
    if b == [] then false
    else if a == [] then true
    else a[0] < b[0] || (a[0] == b[0] && StrLess(a[1..], b[1..]))
  }

  /** a is a proper beginning of b, or has the smaller character where they first differ. */
  ghost predicate Before(a: string, b: string) {
    exists n: nat :: FirstDiffer(a, b, n) && (n == |a| || (n < |b| && a[n] < b[n]))
  }

  /** They agree up to n, and n is the end of one or a position at which they differ. */
  ghost predicate FirstDiffer(a: string, b: string, n: nat) {
    && n <= |a| && n <= |b| && a[..n] == b[..n] && (n < |a| || n < |b|)
    && (n < |a| && n < |b| ==> a[n] != b[n])
  }

  lemma {:induction false} StrLessMeans(a: string, b: string)
    ensures StrLess(a, b) <==> Before(a, b)
    decreases |a|
  {
    if a == [] || b == [] || a[0] != b[0] {
      if a != b { assert FirstDiffer(a, b, 0); }
      forall n: nat | FirstDiffer(a, b, n) ensures n == 0 { SharedHead(a, b, n); }
    } else {
      StrLessMeans(a[1..], b[1..]);
      forall n: nat ensures FirstDiffer(a, b, n + 1) <==> FirstDiffer(a[1..], b[1..], n) { DifferNext(a, b, n); }
      if Before(a[1..], b[1..]) {
        var n: nat :| FirstDiffer(a[1..], b[1..], n) && (n == |a[1..]| || (n < |b[1..]| && a[1..][n] < b[1..][n]));
        assert FirstDiffer(a, b, n + 1);
      }
      if Before(a, b) {
        var n: nat :| FirstDiffer(a, b, n) && (n == |a| || (n < |b| && a[n] < b[n]));
        assert FirstDiffer(a[1..], b[1..], n - 1);
      }
    }
  }

  lemma SharedHead(a: string, b: string, n: nat)
    requires n <= |a| && n <= |b| && a[..n] == b[..n]
    ensures n == 0 || a[0] == b[0]
  {
    if n > 0 { assert a[..n][0] == a[0] && b[..n][0] == b[0]; }
  }

  lemma DifferNext(a: string, b: string, n: nat)
    requires a != [] && b != [] && a[0] == b[0]
    ensures FirstDiffer(a, b, n + 1) <==> FirstDiffer(a[1..], b[1..], n)
  {
    if n + 1 <= |a| && n + 1 <= |b| {
      assert a[..n + 1] == [a[0]] + a[1..][..n] && b[..n + 1] == [b[0]] + b[1..][..n];
      assert a[..n + 1][1..] == a[1..][..n] && b[..n + 1][1..] == b[1..][..n];
    }
  }

  /** Whatever follows, the smaller character decides, and a beginning comes before what goes on. */
  lemma StrLessDecides(p: string, x: string, y: string, c: char, d: char)
    requires c < d
    ensures StrLess(p + [c] + x, p + [d] + y) && StrLess(p, p + [c] + x)
  {
    var a, b := p + [c] + x, p + [d] + y;
    assert a[..|p|] == p && b[..|p|] == p && a[|p|] == c && b[|p|] == d && p[..|p|] == p;
    assert FirstDiffer(a, b, |p|) && FirstDiffer(p, a, |p|);
    StrLessMeans(a, b);
    StrLessMeans(p, a);
  }

  lemma {:induction false} StrLessIrreflexive(a: string)
    ensures !StrLess(a, a)
  {
    if a != [] { StrLessIrreflexive(a[1..]); }
  }

  lemma {:induction false} StrLessTransitive(a: string, b: string, c: string)
    requires StrLess(a, b) && StrLess(b, c)
    ensures StrLess(a, c)
  {
    if a != [] && a[0] == b[0] && b[0] == c[0] {
      StrLessTransitive(a[1..], b[1..], c[1..]);
    }
  }

  lemma {:induction false} StrLessConnected(a: string, b: string)
    requires a != b
    ensures StrLess(a, b) || StrLess(b, a)
  {
    if a != [] && b != [] && a[0] == b[0] {
      assert a == [a[0]] + a[1..];
      assert b == [b[0]] + b[1..];
      StrLessConnected(a[1..], b[1..]);
    }
  }

  lemma StrLessTotal()
    ensures StrictTotal(StrLess)
  {
    forall a ensures !StrLess(a, a) { StrLessIrreflexive(a); }
    forall a, b, c | StrLess(a, b) && StrLess(b, c) ensures StrLess(a, c) { StrLessTransitive(a, b, c); }
    forall a, b | a != b ensures StrLess(a, b) || StrLess(b, a) { StrLessConnected(a, b); }
  }
}
