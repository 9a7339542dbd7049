/** Decimal text, and the search for a name nothing uses yet.

    Two rewrites pick a variable by trying `prefix0`, `prefix1`, ... against the names in use: the
    rendering wraps a read in a comprehension over a fresh `v<i>`, and the `.where` rewrite falls back
    to `__host<i>`.
 */
module Names {

  function Digit(d: nat): (c: char)
    requires d < 10
    ensures '0' <= c <= '9'
  {
    ('0' as int + d) as char
  }

  predicate AllDigits(s: string) {
    forall i :: 0 <= i < |s| ==> '0' <= s[i] <= '9'
  }

  /** strconv.Itoa of a natural number. */
  function Decimal(n: nat): (s: string)
    ensures s != []
    ensures AllDigits(s)
    ensures |s| > 1 ==> s[0] != '0'
  {
    if n < 10 then [Digit(n)] else Decimal(n / 10) + [Digit(n % 10)]
  }

  /** The number decimal text stands for. */
  function Number(s: string): nat
    requires AllDigits(s)
  {
    if s == [] then 0 else 10 * Number(s[..|s| - 1]) + (s[|s| - 1] as int - '0' as int)
  }

  lemma {:induction false} NumberOfDecimal(n: nat)
    ensures Number(Decimal(n)) == n
  {
    if n >= 10 {
      NumberOfDecimal(n / 10);
      assert Decimal(n)[..|Decimal(n)| - 1] == Decimal(n / 10);
    }
  }

  /** The k-th candidate. */
  function Candidate(prefix: string, k: nat): string {
    prefix + Decimal(k)
  }

  lemma CandidatesDistinct(prefix: string, j: nat, k: nat)
    requires Candidate(prefix, j) == Candidate(prefix, k)
    ensures j == k
  {
    NumberOfDecimal(j);
    NumberOfDecimal(k);
    assert Candidate(prefix, j)[|prefix|..] == Decimal(j);
    assert Candidate(prefix, k)[|prefix|..] == Decimal(k);
  }

  /** A finite set cannot hold more candidates than it has elements, so the search ends. */
  lemma {:induction false} CandidatesFit(prefix: string, used: set<string>, n: nat)
    requires forall j: nat :: j < n ==> Candidate(prefix, j) in used
    ensures n <= |used|
  {
    if n > 0 {
      var last := Candidate(prefix, n - 1);
      forall j: nat | j < n - 1 ensures Candidate(prefix, j) in used - {last} {
        if Candidate(prefix, j) == last { CandidatesDistinct(prefix, j, n - 1); }
      }
      CandidatesFit(prefix, used - {last}, n - 1);
      assert |used - {last}| == |used| - 1;
    }
  }

  /** The first candidate from the k-th on that is not in use. */
  function FirstFree(prefix: string, used: set<string>, k: nat): (name: string)
    requires forall j: nat :: j < k ==> Candidate(prefix, j) in used
    ensures name !in used
    ensures exists i: nat :: name == Candidate(prefix, i) && forall j: nat :: j < i ==> Candidate(prefix, j) in used
    decreases (CandidatesFit(prefix, used, k); |used| - k)
  {
    CandidatesFit(prefix, used, k);
    if Candidate(prefix, k) !in used then Candidate(prefix, k)
    else
      CandidatesFit(prefix, used, k + 1);
      FirstFree(prefix, used, k + 1)
  }

  method FindFree(prefix: string, used: set<string>) returns (name: string)
    ensures name == FirstFree(prefix, used, 0)
  {
    var i := 0;
    while Candidate(prefix, i) in used
      invariant forall j: nat :: j < i ==> Candidate(prefix, j) in used
      invariant FirstFree(prefix, used, 0) == FirstFree(prefix, used, i)
      decreases |used| - i
    {
      CandidatesFit(prefix, used, i + 1);
      i := i + 1;
    }
    name := Candidate(prefix, i);
  }
}
