/** Cell paths of a payload, and their form with every index generalised: `acl[0].users[2].pw` becomes
    `acl[].users[].pw`.
 */
module IndexPaths {
  import opened Names
  import opened Seqs

  predicate IsDigit(c: char) {
    '0' <= c <= '9'
  }

  function DigitEnd(s: string, i: nat): (e: nat)
    requires i <= |s|
    ensures i <= e <= |s| && (forall k :: i <= k < e ==> IsDigit(s[k])) && (e < |s| ==> !IsDigit(s[e]))
    decreases |s| - i
  {
    if i < |s| && IsDigit(s[i]) then DigitEnd(s, i + 1) else i
  }

  /** An index segment `[<digits>]` opens s. */
  predicate OpensWithIndex(s: string) {
    s != "" && s[0] == '[' && var e := DigitEnd(s, 1); 1 < e < |s| && s[e] == ']'
  }

  /** Every index segment replaced, from the left. */
  function Generalized(s: string): string
    decreases |s|
  {
    if s == "" then ""
    else if OpensWithIndex(s) then "[]" + Generalized(s[DigitEnd(s, 1) + 1..])
    else [s[0]] + Generalized(s[1..])
  }

  /** The pattern is only put to work when there is a bracket. */
  function NormalizeIdx(path: string): string {
    if '[' !in path then path else Generalized(path)
  }

  lemma {:induction false} BracketFree(s: string)
    requires '[' !in s
    ensures Generalized(s) == s
  {
    if s != "" {
      assert s[0] in s;
      BracketFree(s[1..]);
      assert s == [s[0]] + s[1..];
    }
  }

  lemma NormalizeIsGeneralized(path: string)
    ensures NormalizeIdx(path) == Generalized(path)
  {
    if '[' !in path { BracketFree(path); }
  }

  /** s begins with an index segment that ends at e. */
  predicate SegmentTo(s: string, e: nat) {
    && 2 <= e < |s| && s[0] == '[' && s[e] == ']'
    && forall k :: 1 <= k < e ==> 48 <= s[k] as int <= 57
  }

  lemma SegmentEnds(s: string, e: nat)
    requires SegmentTo(s, e)
    ensures DigitEnd(s, 1) == e
  {
    var d := DigitEnd(s, 1);
    if d < e { assert false; }
    if e < d { assert false; }
  }

  lemma OpensExactly(s: string)
    ensures OpensWithIndex(s) <==> exists e: nat :: SegmentTo(s, e)
    ensures OpensWithIndex(s) ==> SegmentTo(s, DigitEnd(s, 1))
  {
    if OpensWithIndex(s) { assert SegmentTo(s, DigitEnd(s, 1)); }
    forall e: nat | SegmentTo(s, e) ensures DigitEnd(s, 1) == e { SegmentEnds(s, e); }
  }

  /** A path in which no index segment stands is its own general form. */
  lemma {:induction false} UnindexedUnchanged(s: string)
    requires forall i: nat, e: nat :: i < |s| ==> !SegmentTo(s[i..], e)
    ensures NormalizeIdx(s) == s
    decreases |s|
  {
    NormalizeIsGeneralized(s);
    if s != "" {
      assert s[0..] == s;
      OpensExactly(s);
      forall i: nat, e: nat | i < |s[1..]| ensures !SegmentTo(s[1..][i..], e) { assert s[1..][i..] == s[i + 1..]; }
      UnindexedUnchanged(s[1..]);
      NormalizeIsGeneralized(s[1..]);
      HeadAndTail(s);
    }
  }

  // ---- No segment reaches across a boundary ------------------------------------------------

  predicate Breaks(b: string) {
    b == "" || (!IsDigit(b[0]) && b[0] != ']')
  }

  lemma {:induction false} DigitsBefore(a: string, b: string, i: nat)
    requires i <= |a| && Breaks(b)
    ensures DigitEnd(a + b, i) == DigitEnd(a, i)
    decreases |a| - i
  {
    if i < |a| && IsDigit(a[i]) { DigitsBefore(a, b, i + 1); }
  }

  lemma {:induction false} GeneralizedSplits(a: string, b: string)
    requires Breaks(b)
    ensures Generalized(a + b) == Generalized(a) + Generalized(b)
    decreases |a|
  {
    if a == "" {
      NothingBefore(b);
    } else {
      OpensAlike(a, b);
      if OpensWithIndex(a) {
        var rest := a[DigitEnd(a, 1) + 1..];
        GeneralizedSplits(rest, b);
        Regroup("[]", Generalized(rest), Generalized(b));
      } else {
        GeneralizedSplits(a[1..], b);
        Regroup([a[0]], Generalized(a[1..]), Generalized(b));
      }
    }
  }

  lemma OpensAlike(a: string, b: string)
    requires a != "" && Breaks(b)
    ensures OpensWithIndex(a + b) <==> OpensWithIndex(a)
    ensures OpensWithIndex(a) ==>
      DigitEnd(a + b, 1) == DigitEnd(a, 1) && (a + b)[DigitEnd(a, 1) + 1..] == a[DigitEnd(a, 1) + 1..] + b
    ensures (a + b)[1..] == a[1..] + b && (a + b)[0] == a[0]
  {
    DigitsBefore(a, b, 1);
    DropPast(a, b, 1);
    if OpensWithIndex(a) { DropPast(a, b, DigitEnd(a, 1) + 1); }
  }

  function JoinPath(path: string, key: string): string {
    if path == "" then key else path + "." + key
  }

  function JoinIdx(path: string, i: nat): string {
    path + "[" + Decimal(i) + "]"
  }

  lemma {:induction false} DigitsRun(d: string, r: string, i: nat)
    requires AllDigits(d) && 1 <= i <= |d| + 1
    ensures DigitEnd("[" + d + "]" + r, i) == |d| + 1
    decreases |d| - i + 1
  {
    if i <= |d| { DigitsRun(d, r, i + 1); }
  }

  lemma IndexOpens(d: string, r: string)
    requires AllDigits(d)
    ensures Generalized("[" + d + "]" + r) == "[]" + Generalized(r)
  {
    DigitsRun(d, r, 1);
    var s := "[" + d + "]" + r;
    assert s[|d| + 1] == ']';
    assert s[|d| + 2..] == r;
  }

  /** A concrete index anywhere in a path becomes the general one, and nothing around it changes. */
  lemma IndexGeneralizes(p: string, i: nat, r: string)
    ensures NormalizeIdx(JoinIdx(p, i) + r) == NormalizeIdx(p) + "[]" + NormalizeIdx(r)
  {
    var b := "[" + Decimal(i) + "]" + r;
    assert JoinIdx(p, i) + r == p + b;
    GeneralizedSplits(p, b);
    IndexOpens(Decimal(i), r);
    NormalizeIsGeneralized(JoinIdx(p, i) + r);
    NormalizeIsGeneralized(p);
    NormalizeIsGeneralized(r);
  }

  /** So whichever index a path carries, the general form is one. */
  lemma IndexIsForgotten(p: string, i: nat, j: nat, r: string)
    ensures NormalizeIdx(JoinIdx(p, i) + r) == NormalizeIdx(JoinIdx(p, j) + r)
  {
    IndexGeneralizes(p, i, r);
    IndexGeneralizes(p, j, r);
  }

  lemma KeyGeneralizes(p: string, k: string)
    ensures NormalizeIdx(JoinPath(p, k)) == JoinPath(NormalizeIdx(p), NormalizeIdx(k))
  {
    NormalizeIsGeneralized(JoinPath(p, k));
    NormalizeIsGeneralized(p);
    NormalizeIsGeneralized(k);
    if p != "" {
      Regroup(p, ".", k);
      GeneralizedSplits(p, "." + k);
      TailOf('.', k);
      Regroup(Generalized(p), ".", Generalized(k));
    }
  }
}
