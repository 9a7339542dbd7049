/** Vault references in text: where one matches, and text with every match masked.

    A reference is `vault:<mount>/<path>`, the mount one or more of [A-Za-z0-9._-] and the path any
    number of [A-Za-z0-9._/-]. Bytes are modelled as characters.
 */
module VaultRefs {
  import opened Seqs

  const MARKER := "vault:"
  const MASKED := "***MASKED***"

  predicate IsMount(c: char) {
    'a' <= c <= 'z' || 'A' <= c <= 'Z' || '0' <= c <= '9' || c == '.' || c == '_' || c == '-'
  }

  predicate IsPath(c: char) {
    IsMount(c) || c == '/'
  }

  /** The two classes of the pattern by code: `-` and `.`, the digits, the capitals, `_` and the small letters,
      and in a path `/` as well. */
  lemma ClassesExactly(c: char)
    ensures IsMount(c) <==>
      c as int in {45, 46, 95} || 48 <= c as int <= 57 || 65 <= c as int <= 90 || 97 <= c as int <= 122
    ensures IsPath(c) <==> IsMount(c) || c as int == 47
  {
  }

  predicate MarkerAt(s: string, i: nat) {
    i + 6 <= |s| && s[i..i + 6] == MARKER
  }

  /** The end of the run of mount characters that starts at i. */
  function MountEnd(s: string, i: nat): (e: nat)
    requires i <= |s|
    ensures i <= e <= |s|
    ensures forall k :: i <= k < e ==> IsMount(s[k])
    ensures e < |s| ==> !IsMount(s[e])
    decreases |s| - i
  {
    if i < |s| && IsMount(s[i]) then MountEnd(s, i + 1) else i
  }

  function PathEnd(s: string, i: nat): (e: nat)
    requires i <= |s|
    ensures i <= e <= |s|
    ensures forall k :: i <= k < e ==> IsPath(s[k])
    ensures e < |s| ==> !IsPath(s[e])
    decreases |s| - i
  {
    if i < |s| && IsPath(s[i]) then PathEnd(s, i + 1) else i
  }

  /** A reference starts at i. The mount takes the whole run of its class, which the separator is not
      part of, so no shorter mount needs to be tried. */
  predicate HasRef(s: string, i: nat) {
    MarkerAt(s, i) && var m := MountEnd(s, i + 6); i + 6 < m < |s| && s[m] == '/'
  }

  /** The position of its separator. */
  function Slash(s: string, i: nat): (m: nat)
    requires HasRef(s, i)
    ensures i + 6 < m < |s| && s[m] == '/'
  {
    MountEnd(s, i + 6)
  }

  /** Where it ends: the path takes all it can. */
  function RefEnd(s: string, i: nat): (e: nat)
    requires HasRef(s, i)
    ensures i + 6 < e <= |s|
  {
    SlashBeforeEnd(s, i);
    PathEnd(s, i + 6)
  }

  lemma SlashBeforeEnd(s: string, i: nat)
    requires HasRef(s, i)
    ensures Slash(s, i) < PathEnd(s, i + 6)
  {
    var m, e := Slash(s, i), PathEnd(s, i + 6);
    assert e <= m ==> IsPath(s[e]);
  }

  // ---- The pattern, as a language ---------------------------------------------------------

  /** s[i..j] is a word of vault:[A-Za-z0-9._-]+/[A-Za-z0-9._/-]* with its separator at m. */
  ghost predicate IsWord(s: string, i: nat, m: nat, j: nat) {
    && MarkerAt(s, i) && i + 6 < m < j <= |s| && s[m] == '/'
    && (forall k :: i + 6 <= k < m ==> IsMount(s[k]))
    && (forall k :: m < k < j ==> IsPath(s[k]))
  }

  /** The functions above find a word wherever there is one, and the longest. */
  lemma RefIsLongestWord(s: string, i: nat)
    ensures HasRef(s, i) <==> exists m: nat, j: nat :: IsWord(s, i, m, j)
    ensures HasRef(s, i) ==> IsWord(s, i, Slash(s, i), RefEnd(s, i))
    ensures HasRef(s, i) ==> forall m: nat, j: nat :: IsWord(s, i, m, j) ==> j <= RefEnd(s, i)
  {
    if HasRef(s, i) {
      SlashBeforeEnd(s, i);
      assert IsWord(s, i, Slash(s, i), RefEnd(s, i));
    }
    forall m: nat, j: nat | IsWord(s, i, m, j) ensures HasRef(s, i) && j <= RefEnd(s, i) {
      var e := MountEnd(s, i + 6);
      assert e == m;
      var p := PathEnd(s, i + 6);
      assert j <= p;
    }
  }

  // ---- Masking ----------------------------------------------------------------------------

  /** Every match replaced, leftmost first. */
  function Mask(s: string): string
    decreases |s|
  {
    if s == [] then []
    else if HasRef(s, 0) then MASKED + Mask(s[RefEnd(s, 0)..])
    else [s[0]] + Mask(s[1..])
  }

  /** A value is masked whole when it holds a reference anywhere. */
  predicate ContainsRef(s: string) {
    exists i :: 0 <= i < |s| && HasRef(s, i)
  }

  /** A text without a reference is left as it is. */
  lemma {:induction false} NoRefUnmasked(s: string)
    requires !ContainsRef(s)
    ensures Mask(s) == s
    decreases |s|
  {
    if s != "" {
      forall i | 0 <= i < |s[1..]| ensures !HasRef(s[1..], i) {
        RefShift(s, 1, i);
        assert !HasRef(s, i + 1);
      }
      assert !HasRef(s, 0);
      NoRefUnmasked(s[1..]);
      HeadAndTail(s);
    }
  }

  /** Otherwise the leftmost reference is replaced, at its full length, and what follows is masked in turn. */
  lemma MaskLeftmost(s: string, i: nat)
    requires HasRef(s, i) && forall j: nat :: j < i ==> !HasRef(s, j)
    ensures Mask(s) == s[..i] + "***MASKED***" + Mask(s[RefEnd(s, i)..])
  {
    MaskSplits(s, i);
    forall j | 0 <= j < |s[..i]| ensures !HasRef(s[..i], j) { RefInPrefix(s, i, j); }
    NoRefUnmasked(s[..i]);
    RefShift(s, i, 0);
    MaskAtRef(s[i..]);
    assert s[i..][RefEnd(s, i) - i..] == s[RefEnd(s, i)..];
    Regroup(s[..i], MASKED, Mask(s[RefEnd(s, i)..]));
  }

  /** A reference begins with these six characters. */
  lemma WordsAreVault(s: string, i: nat, m: nat, j: nat)
    requires IsWord(s, i, m, j)
    ensures s[i..i + 6] == "vault:"
  {
  }

  // ---- A reference looks at nothing before it, and past its end only at one character ------

  lemma MarkerShift(s: string, k: nat, i: nat)
    requires k <= |s|
    ensures MarkerAt(s[k..], i) <==> MarkerAt(s, k + i)
  {
    if k + i + 6 <= |s| { assert s[k..][i..i + 6] == s[k + i..k + i + 6]; }
  }

  lemma {:induction false} MountShift(s: string, k: nat, i: nat)
    requires k + i <= |s|
    ensures MountEnd(s[k..], i) == MountEnd(s, k + i) - k
    decreases |s| - i
  {
    if k + i < |s| && IsMount(s[k + i]) { MountShift(s, k, i + 1); }
  }

  lemma {:induction false} PathShift(s: string, k: nat, i: nat)
    requires k + i <= |s|
    ensures PathEnd(s[k..], i) == PathEnd(s, k + i) - k
    decreases |s| - i
  {
    if k + i < |s| && IsPath(s[k + i]) { PathShift(s, k, i + 1); }
  }

  lemma RefShift(s: string, k: nat, i: nat)
    requires k <= |s|
    ensures HasRef(s[k..], i) <==> HasRef(s, k + i)
    ensures HasRef(s, k + i) ==> Slash(s[k..], i) == Slash(s, k + i) - k && RefEnd(s[k..], i) == RefEnd(s, k + i) - k
  {
    MarkerShift(s, k, i);
    if MarkerAt(s, k + i) {
      MountShift(s, k, i + 6);
      PathShift(s, k, i + 6);
    }
  }

  /** Runs are decided by where they stop. */
  lemma RunsStop(s: string, i: nat, e: nat)
    requires i <= e <= |s|
    ensures (forall k :: i <= k < e ==> IsMount(s[k])) && (e < |s| ==> !IsMount(s[e])) ==> MountEnd(s, i) == e
    ensures (forall k :: i <= k < e ==> IsPath(s[k])) && (e < |s| ==> !IsPath(s[e])) ==> PathEnd(s, i) == e
  {
    var m, p := MountEnd(s, i), PathEnd(s, i);
  }

  lemma MarkerInPrefix(s: string, k: nat, i: nat)
    requires i + 6 <= k <= |s|
    ensures MarkerAt(s[..k], i) <==> MarkerAt(s, i)
  {
    assert s[..k][i..i + 6] == s[i..i + 6];
  }

  lemma {:induction false} MountInPrefix(s: string, k: nat, i: nat)
    requires i <= k <= |s|
    ensures MountEnd(s[..k], i) == if MountEnd(s, i) <= k then MountEnd(s, i) else k
    decreases k - i
  {
    if i < k && IsMount(s[i]) { MountInPrefix(s, k, i + 1); }
  }

  lemma {:induction false} PathInPrefix(s: string, k: nat, i: nat)
    requires i <= k <= |s|
    ensures PathEnd(s[..k], i) == if PathEnd(s, i) <= k then PathEnd(s, i) else k
    decreases k - i
  {
    if i < k && IsPath(s[i]) { PathInPrefix(s, k, i + 1); }
  }

  /** Whether a prefix shows the reference: it does once it holds the separator. */
  lemma RefInPrefix(s: string, k: nat, i: nat)
    requires k <= |s|
    ensures HasRef(s[..k], i) <==> HasRef(s, i) && Slash(s, i) < k
    ensures HasRef(s[..k], i) ==> Slash(s[..k], i) == Slash(s, i)
    ensures HasRef(s[..k], i) ==> RefEnd(s[..k], i) == if RefEnd(s, i) <= k then RefEnd(s, i) else k
  {
    if i + 6 <= k {
      MarkerInPrefix(s, k, i);
      MountInPrefix(s, k, i + 6);
      PathInPrefix(s, k, i + 6);
    }
  }

  ghost predicate NoneCrosses(s: string, k: nat) {
    forall i :: 0 <= i < k && HasRef(s, i) ==> RefEnd(s, i) <= k
  }

  /** Masking may be done in two parts wherever no reference crosses the cut. */
  lemma {:induction false} MaskSplits(s: string, k: nat)
    requires k <= |s| && NoneCrosses(s, k)
    ensures Mask(s) == Mask(s[..k]) + Mask(s[k..])
    decreases k
  {
    if k == 0 {
      NothingMasked(s);
    } else {
      var n := Step(s, k);
      NoneCrossesRest(s, n, k);
      MaskSplits(s[n..], k - n);
      StepSplits(s, n, k);
    }
  }

  lemma NothingMasked(s: string)
    ensures Mask(s) == Mask(s[..0]) + Mask(s[0..])
  {
    assert s[..0] == [] && s[0..] == s;
  }

  /** How much of the part before the cut is masked or copied in one go. */
  ghost function Step(s: string, k: nat): (n: nat)
    requires 0 < k <= |s| && NoneCrosses(s, k)
    ensures 0 < n <= k && n == if HasRef(s, 0) then RefEnd(s, 0) else 1
  {
    if HasRef(s, 0) then SlashBeforeEnd(s, 0); RefEnd(s, 0) else 1
  }

  lemma StepSplits(s: string, n: nat, k: nat)
    requires 0 < n <= k <= |s| && n == if HasRef(s, 0) then RefEnd(s, 0) else 1
    requires Mask(s[n..]) == Mask(s[n..][..k - n]) + Mask(s[n..][k - n..])
    ensures Mask(s) == Mask(s[..k]) + Mask(s[k..])
  {
    var first := if HasRef(s, 0) then MASKED else [s[0]];
    SameStart(s, k);
    MaskNext(s, n, first);
    MaskNext(s[..k], n, first);
    SplitNext(s, n, k, first);
  }

  lemma SplitNext(s: string, n: nat, k: nat, first: string)
    requires n <= k <= |s| && Mask(s[n..]) == Mask(s[n..][..k - n]) + Mask(s[n..][k - n..])
    ensures first + Mask(s[n..]) == first + Mask(s[..k][n..]) + Mask(s[k..])
  {
    SliceOfRest(s, n, k);
    Regroup(first, Mask(s[..k][n..]), Mask(s[k..]));
  }

  /** A reference that ends before the cut begins the part before it too. */
  lemma SameStart(s: string, k: nat)
    requires 0 < k <= |s| && (HasRef(s, 0) ==> RefEnd(s, 0) <= k)
    ensures (HasRef(s[..k], 0) <==> HasRef(s, 0)) && (HasRef(s, 0) ==> RefEnd(s[..k], 0) == RefEnd(s, 0))
  {
    RefInPrefix(s, k, 0);
    if HasRef(s, 0) { SlashBeforeEnd(s, 0); }
  }

  lemma NoneCrossesRest(s: string, n: nat, k: nat)
    requires n <= k <= |s| && NoneCrosses(s, k)
    ensures NoneCrosses(s[n..], k - n)
  {
    forall i | 0 <= i < k - n && HasRef(s[n..], i) ensures RefEnd(s[n..], i) <= k - n {
      RefShift(s, n, i);
    }
  }

  lemma SliceOfRest(s: string, n: nat, k: nat)
    requires n <= k <= |s|
    ensures s[n..][..k - n] == s[..k][n..] && s[n..][k - n..] == s[k..]
  {
  }

  lemma MaskNext(s: string, n: nat, first: string)
    requires s != [] && n <= |s| && n == if HasRef(s, 0) then RefEnd(s, 0) else 1
    requires first == if HasRef(s, 0) then MASKED else [s[0]]
    ensures Mask(s) == first + Mask(s[n..])
  {
  }

  lemma MaskAtRef(s: string)
    requires HasRef(s, 0)
    ensures Mask(s) == MASKED + Mask(s[RefEnd(s, 0)..])
  {
  }

  lemma MaskStarts(s: string)
    requires s != []
    ensures Mask(s) != [] && (Mask(s)[0] == s[0] || Mask(s)[0] == '*')
    ensures !HasRef(s, 0) ==> Mask(s)[0] == s[0]
  {
  }
}
