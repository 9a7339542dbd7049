/** Masking a byte stream that arrives in chunks.

    A pty echoes keystrokes one at a time, so a reference may reach the recorder in fifteen chunks
    none of which matches. `SafeMaskSplit` says how much of the buffer may be masked and written now;
    the rest is carried to the next chunk.
 */
module MaskStream {
  import opened Seqs
  import opened VaultRefs

  const MAX_CARRY := 4096

  // ---- Where to split ---------------------------------------------------------------------

  /** The last marker at or before n, or -1. */
  function LastMarker(s: string, n: int): (i: int)
    requires n <= |s|
    ensures -1 <= i
    ensures i >= 0 ==> MarkerAt(s, i) && i <= n
    ensures forall j: nat :: i < j <= n ==> !MarkerAt(s, j)
    decreases n + 1
  {
    if n < 0 then -1 else if MarkerAt(s, n) then n else LastMarker(s, n - 1)
  }

  /** Every character of the tail could still belong to a mount or a path. */
  predicate Growable(tail: string) {
    forall i :: 0 <= i < |tail| ==> IsPath(tail[i])
  }

  predicate EndsWith(s: string, t: string) {
    |t| <= |s| && s[|s| - |t|..] == t
  }

  /** The longest proper beginning of the marker, of at most n characters, that s ends with. */
  function PartialMarker(s: string, n: nat): (k: nat)
    requires n < 6
    ensures k <= n && k <= |s| && EndsWith(s, MARKER[..k])
    ensures forall j: nat :: k < j <= n ==> !EndsWith(s, MARKER[..j])
  {
    if n == 0 then 0 else if EndsWith(s, MARKER[..n]) then n else PartialMarker(s, n - 1)
  }

  /** A reference may be in progress: the last marker with a growable tail. */
  predicate InProgress(buf: string) {
    var i := LastMarker(buf, |buf|);
    i >= 0 && Growable(buf[i + 6..])
  }

  /** The carry would pass its bound, so the buffer is released whole. */
  predicate Releases(buf: string) {
    InProgress(buf) && |buf| - LastMarker(buf, |buf|) > MAX_CARRY
  }

  function SafeSplit(buf: string): (k: nat)
    ensures k <= |buf|
    ensures |buf| - k <= MAX_CARRY
  {
    if Releases(buf) then |buf|
    else if InProgress(buf) then LastMarker(buf, |buf|)
    else |buf| - PartialMarker(buf, 5)
  }

  /** A reference may be in progress from k on: a marker stands there, none after it, and only path characters
      follow it. */
  ghost predicate OpenFrom(buf: string, k: nat) {
    && MarkerAt(buf, k) && (forall j: nat :: j > k ==> !MarkerAt(buf, j))
    && forall i :: k + 6 <= i < |buf| ==> IsPath(buf[i])
  }

  /** The last n characters begin a marker, and no longer end of the buffer does. */
  ghost predicate LongestStart(buf: string, n: nat) {
    n < 6 && EndsWith(buf, MARKER[..n]) && forall l: nat :: n < l < 6 ==> !EndsWith(buf, MARKER[..l])
  }

  /** The split, exactly. With a reference open it is where that begins, or the end of the buffer once it is too
      long to carry; without one it is before the longest end of the buffer that begins a marker. */
  lemma SplitExactly(buf: string)
    ensures InProgress(buf) <==> exists k: nat :: OpenFrom(buf, k)
    ensures forall k: nat :: OpenFrom(buf, k) ==> SafeSplit(buf) == if |buf| - k > MAX_CARRY then |buf| else k
    ensures !InProgress(buf) ==> exists n: nat :: LongestStart(buf, n) && SafeSplit(buf) == |buf| - n
  {
    var last := LastMarker(buf, |buf|);
    if InProgress(buf) {
      TailCharacters(buf, last);
      assert OpenFrom(buf, last);
    } else {
      assert LongestStart(buf, PartialMarker(buf, 5));
    }
    forall k: nat | OpenFrom(buf, k) ensures last == k && InProgress(buf) { TailCharacters(buf, k); }
  }

  lemma TailCharacters(buf: string, k: nat)
    requires MarkerAt(buf, k)
    ensures Growable(buf[k + 6..]) <==> forall i :: k + 6 <= i < |buf| ==> IsPath(buf[i])
  {
    var tail := buf[k + 6..];
    if Growable(tail) {
      forall i | k + 6 <= i < |buf| ensures IsPath(buf[i]) { assert buf[i] == tail[i - (k + 6)]; }
    }
  }

  method RefTailGrowable(tail: string) returns (growable: bool)
    ensures growable == Growable(tail)
  {
    for i := 0 to |tail|
      invariant forall j :: 0 <= j < i ==> IsPath(tail[j])
    {
      if !IsPath(tail[i]) { return false; }
    }
    return true;
  }

  method SafeMaskSplit(buf: string) returns (k: nat)
    ensures k == SafeSplit(buf)
  {
    if |buf| == 0 { return 0; }
    var i := LastMarker(buf, |buf|);
    if i >= 0 {
      var growable := RefTailGrowable(buf[i + 6..]);
      if growable {
        if |buf| - i > MAX_CARRY { return |buf|; }
        return i;
      }
    }
    var n := if 5 > |buf| then |buf| else 5;
    while n > 0
      invariant 0 <= n <= 5 && n <= |buf|
      invariant forall j: nat :: n < j <= 5 ==> !EndsWith(buf, MARKER[..j])
    {
      if EndsWith(buf, MARKER[..n]) { return |buf| - n; }
      n := n - 1;
    }
    return |buf|;
  }

  // ---- The stream -------------------------------------------------------------------------

  /** The held-back tail of one stream. */
  class Carry {
    var buf: string

    constructor ()
      ensures buf == []
    {
      buf := [];
    }

    /** Splices the chunk onto the tail, masks what is safe to write, keeps the new tail. */
    method Write(chunk: string) returns (out: string)
      modifies this
      ensures var all := old(buf) + chunk;
              out == Mask(all[..SafeSplit(all)]) && buf == all[SafeSplit(all)..]
      ensures |buf| <= MAX_CARRY
    {
      buf := buf + chunk;
      var split := SafeMaskSplit(buf);
      out := Mask(buf[..split]);
      buf := buf[split..];
    }

    /** On close the held-back bytes are recorded too. */
    method Flush() returns (out: string)
      modifies this
      ensures out == Mask(old(buf)) && buf == []
    {
      out := Mask(buf);
      buf := [];
    }
  }

  /** What the chunks are written as, from a given carry, the final flush included. */
  function Stream(carry: string, chunks: seq<string>): string
    decreases |chunks|
  {
    if chunks == [] then Mask(carry)
    else
      var buf := carry + chunks[0];
      var k := SafeSplit(buf);
      Mask(buf[..k]) + Stream(buf[k..], chunks[1..])
  }

  lemma StreamStep(carry: string, chunks: seq<string>, i: nat)
    requires i < |chunks|
    ensures var buf := carry + chunks[i]; var k := SafeSplit(buf);
            Stream(carry, chunks[i..]) == Mask(buf[..k]) + Stream(buf[k..], chunks[i + 1..])
  {
    assert chunks[i..][0] == chunks[i] && chunks[i..][1..] == chunks[i + 1..];
  }

  method Record(chunks: seq<string>) returns (out: string)
    ensures out == Stream([], chunks)
  {
    var carry := new Carry();
    out := [];
    for i := 0 to |chunks|
      invariant out + Stream(carry.buf, chunks[i..]) == Stream([], chunks)
    {
      ghost var was := carry.buf;
      var written := carry.Write(chunks[i]);
      StreamStep(was, chunks, i);
      Regroup(out, written, Stream(carry.buf, chunks[i + 1..]));
      out := out + written;
    }
    var rest := carry.Flush();
    out := out + rest;
  }

  function Concat(chunks: seq<string>): string {
    if chunks == [] then [] else chunks[0] + Concat(chunks[1..])
  }

  /** The 4 KiB release fires somewhere in the run. */
  predicate ReleaseFires(carry: string, chunks: seq<string>)
    decreases |chunks|
  {
    chunks != [] &&
    (var buf := carry + chunks[0];
     Releases(buf) || ReleaseFires(buf[SafeSplit(buf)..], chunks[1..]))
  }

  // ---- What the split guarantees ----------------------------------------------------------

  /** Markers do not overlap. */
  lemma MarkersApart(t: string, i: nat, j: nat)
    requires MarkerAt(t, i) && MarkerAt(t, j) && i < j
    ensures i + 6 <= j
  {
    var w := t[i..i + 6];
    assert forall d :: 1 <= d < 6 ==> t[i + d] == w[d] && w[d] != 'v';
    assert t[j..j + 6][0] == 'v' && t[j] == 'v';
  }

  /** A reference begun before a marker has its separator before it: the marker's `:` stops the
      mount, and there is no `/` in the marker. */
  lemma SlashBeforeMarker(t: string, i: nat, j: nat)
    requires HasRef(t, i) && MarkerAt(t, j) && i < j
    ensures Slash(t, i) < j
  {
    MarkersApart(t, i, j);
    var m := Slash(t, i);
    var w := t[j..j + 6];
    assert w[5] == ':' && t[j + 5] == ':' && !IsMount(':');
    assert forall k :: 0 <= k < 6 ==> w[k] != '/' && t[j + k] == w[k];
  }

  lemma MarkerInPrefix(t: string, n: nat, i: nat)
    requires n <= |t|
    ensures MarkerAt(t[..n], i) <==> MarkerAt(t, i) && i + 6 <= n
  {
    if i + 6 <= n { assert t[..n][i..i + 6] == t[i..i + 6]; }
  }

  /** A buffer that ends part-way through a marker is split before it. */
  lemma SplitBeforePartial(buf: string, t: string, i: nat)
    requires buf <= t && MarkerAt(t, i) && i <= |buf| < i + 6 && !InProgress(buf)
    ensures SafeSplit(buf) <= i
  {
    var n := |buf| - i;
    assert buf[i..] == t[i..i + 6][..n];
    assert EndsWith(buf, MARKER[..n]);
  }

  /** Without a reference in progress, what is held back begins a marker, the most that can, and so is
      path characters. */
  lemma HeldBackBeginsMarker(buf: string)
    requires !InProgress(buf)
    ensures var held := buf[SafeSplit(buf)..];
      |held| < 6 && held == MARKER[..|held|] && forall n: nat :: |held| < n < 6 ==> !EndsWith(buf, MARKER[..n])
    ensures forall q :: SafeSplit(buf) <= q < |buf| ==> IsPath(buf[q])
  {
    var n := PartialMarker(buf, 5);
    var held := MARKER[..n];
    assert forall k :: 0 <= k < n ==> IsPath(held[k]);
    assert buf[|buf| - n..] == held;
    assert forall q :: |buf| - n <= q < |buf| ==> buf[q] == held[q - (|buf| - n)];
  }

  /** Short of a release, no reference straddles the split: one that starts before it has its
      separator before it too. */
  lemma SplitShowsRef(buf: string, t: string, i: nat)
    requires buf <= t && !Releases(buf) && i < SafeSplit(buf) && HasRef(t, i)
    ensures Slash(t, i) < SafeSplit(buf)
  {
    var k, last := SafeSplit(buf), LastMarker(buf, |buf|);
    assert t[..|buf|] == buf;
    if InProgress(buf) {
      MarkerInPrefix(t, |buf|, last);
      SlashBeforeMarker(t, i, last);
    } else {
      if |buf| < i + 6 { SplitBeforePartial(buf, t, i); }
      MarkerInPrefix(t, |buf|, i);
      StopsInBuffer(buf, t, last);
      if i < last { SlashBeforeMarker(t, i, last); }
      else { assert IsPath('/'); }
    }
  }

  /** A last marker with a tail that cannot grow: the run after it ends inside the buffer, before the
      split. */
  lemma StopsInBuffer(buf: string, t: string, last: nat)
    requires buf <= t && !InProgress(buf) && LastMarker(buf, |buf|) == last
    ensures last < SafeSplit(buf) && MarkerAt(t, last)
    ensures PathEnd(t, last + 6) < SafeSplit(buf)
    ensures MountEnd(t, last + 6) <= PathEnd(t, last + 6)
  {
    assert t[..|buf|] == buf;
    MarkerInPrefix(t, |buf|, last);
    var tail := buf[last + 6..];
    var k :| 0 <= k < |tail| && !IsPath(tail[k]);
    assert tail[k] == buf[last + 6 + k] == t[last + 6 + k];
    var q := PathEnd(t, last + 6);
    assert q <= last + 6 + k;
    assert buf[q] == t[q];
    HeldBackBeginsMarker(buf);
  }

  // ---- Nothing complete gets through ------------------------------------------------------

  /** out repeats t up to its first mask, or to the end. */
  ghost predicate Agrees(t: string, out: string, g: nat) {
    && g <= |t| && g <= |out| && out[..g] == t[..g]
    && if g < |out| then out[g] == '*' else g == |t|
  }

  ghost predicate Faithful(t: string, out: string) {
    !ContainsRef(out) && exists g: nat :: Agrees(t, out, g)
  }

  /** A reference at the start of out would lie before the first mask, so it would be one of t. */
  lemma FirstRefIsShared(t: string, out: string, g: nat)
    requires Agrees(t, out, g) && HasRef(out, 0)
    ensures HasRef(t, 0)
  {
    var m := Slash(out, 0);
    assert forall k :: 0 <= k < 6 ==> out[k] == out[0..6][k] && MARKER[k] != '*';
    assert forall k :: 6 <= k < m ==> IsMount(out[k]) && !IsMount('*');
    assert m < g;
    assert out[..g][..m + 1] == t[..g][..m + 1] == t[..m + 1];
    RefInPrefix(out, m + 1, 0);
    assert out[..m + 1] == t[..m + 1];
    RefInPrefix(t, m + 1, 0);
  }

  lemma RawStep(t: string, out: string)
    requires t != [] && !HasRef(t, 0) && Faithful(t[1..], out)
    ensures Faithful(t, [t[0]] + out)
  {
    var g: nat :| Agrees(t[1..], out, g);
    var all := [t[0]] + out;
    assert all[..g + 1] == [t[0]] + out[..g] == t[..g + 1];
    assert Agrees(t, all, g + 1);
    if HasRef(all, 0) { FirstRefIsShared(t, all, g + 1); }
    forall i: nat | 0 < i < |all| ensures !HasRef(all, i) {
      assert all[1..] == out;
      RefShift(all, 1, i - 1);
    }
  }

  lemma MarkerFirst(s: string, i: nat)
    ensures MarkerAt(s, i) ==> s[i] == 'v'
  {
    if MarkerAt(s, i) { assert s[i] == s[i..i + 6][0]; }
  }

  lemma MaskStep(t: string, u: string, out: string)
    requires Faithful(u, out)
    ensures Faithful(t, MASKED + out)
  {
    var all, n := MASKED + out, |MASKED|;
    assert Agrees(t, all, 0);
    forall i: nat | i < |all| ensures !HasRef(all, i) {
      if i < n {
        assert all[i] == MASKED[i] != 'v';
        MarkerFirst(all, i);
      } else {
        assert all[n..] == out;
        RefShift(all, n, i - n);
      }
    }
  }

  /** How far the masker goes in one step: past a match, or one character. */
  function Stride(s: string): (n: nat)
    requires s != []
    ensures 0 < n <= |s|
  {
    if HasRef(s, 0) then RefEnd(s, 0) else 1
  }

  /** Masking s, the masker comes to position i: no match it replaces covers the position. */
  predicate Reached(s: string, i: nat)
    decreases |s|
  {
    i == 0 || (s != [] && Stride(s) <= i && Reached(s[Stride(s)..], i - Stride(s)))
  }

  /** Every reference of s + u that the masker comes to in s has its separator in s. */
  ghost predicate Shows(s: string, u: string) {
    forall i: nat :: i < |s| && Reached(s, i) && HasRef(s + u, i) ==> Slash(s + u, i) < |s|
  }

  lemma ShowsTail(s: string, u: string, n: nat)
    requires s != [] && n == Stride(s) && Shows(s, u)
    ensures Shows(s[n..], u)
  {
    var t := s + u;
    DropPast(s, u, n);
    forall i: nat | i < |s[n..]| && Reached(s[n..], i) && HasRef(t[n..], i) ensures Slash(t[n..], i) < |s[n..]| {
      RefShift(t, n, i);
      assert Reached(s, n + i);
    }
  }

  lemma ShowsFirst(s: string, u: string)
    requires s != [] && Shows(s, u)
    ensures HasRef(s + u, 0) <==> HasRef(s, 0)
  {
    assert (s + u)[..|s|] == s;
    RefInPrefix(s + u, |s|, 0);
  }

  lemma MaskedPiece(s: string, u: string, out: string)
    requires HasRef(s, 0)
    requires var n := RefEnd(s, 0); Faithful(s[n..] + u, Mask(s[n..]) + out)
    ensures Faithful(s + u, Mask(s) + out)
  {
    var n := RefEnd(s, 0);
    var rest := Mask(s[n..]) + out;
    MaskStep(s + u, s[n..] + u, rest);
    assert Mask(s) + out == MASKED + rest;
  }

  lemma RawPiece(s: string, u: string, out: string)
    requires s != [] && !HasRef(s, 0) && !HasRef(s + u, 0)
    requires Faithful(s[1..] + u, Mask(s[1..]) + out)
    ensures Faithful(s + u, Mask(s) + out)
  {
    var t, rest := s + u, Mask(s[1..]) + out;
    DropPast(s, u, 1);
    RawStep(t, rest);
    RawMask(s, out);
  }

  lemma RawMask(s: string, out: string)
    requires s != [] && !HasRef(s, 0)
    ensures Mask(s) + out == [s[0]] + (Mask(s[1..]) + out)
  {
    Regroup([s[0]], Mask(s[1..]), out);
  }

  /** A masked piece goes before a faithful rest, if every reference that starts in the piece shows its
      separator there. */
  lemma {:induction false} PieceStep(s: string, u: string, out: string)
    requires Faithful(u, out) && Shows(s, u)
    ensures Faithful(s + u, Mask(s) + out)
    decreases |s|
  {
    if s == [] {
      assert s + u == u && Mask(s) + out == out;
    } else if HasRef(s, 0) {
      ShowsTail(s, u, RefEnd(s, 0));
      PieceStep(s[RefEnd(s, 0)..], u, out);
      MaskedPiece(s, u, out);
    } else {
      ShowsFirst(s, u);
      ShowsTail(s, u, 1);
      PieceStep(s[1..], u, out);
      RawPiece(s, u, out);
    }
  }

  lemma NothingFaithful()
    ensures Faithful("", "")
  {
    assert Agrees("", "", 0);
  }

  /** Some release parts a reference the masker comes to from its separator, which is yet to arrive. */
  ghost predicate ReleaseParts(carry: string, chunks: seq<string>)
    decreases |chunks|
  {
    chunks != [] &&
    (var buf := carry + chunks[0];
     (Releases(buf) && !Shows(buf, Concat(chunks[1..]))) || ReleaseParts(buf[SafeSplit(buf)..], chunks[1..]))
  }

  lemma {:induction false} StreamIsFaithful(carry: string, chunks: seq<string>)
    requires !ReleaseParts(carry, chunks)
    ensures Faithful(carry + Concat(chunks), Stream(carry, chunks))
    decreases |chunks|
  {
    var t := carry + Concat(chunks);
    if chunks == [] {
      NothingFaithful();
      NothingAfter(carry);
      NothingAfter(Mask(carry));
      assert Shows(carry, "");
      PieceStep(carry, "", "");
    } else {
      var buf := carry + chunks[0];
      var k := SafeSplit(buf);
      var u := buf[k..] + Concat(chunks[1..]);
      Regroup(carry, chunks[0], Concat(chunks[1..]));
      CutAt(buf, k);
      Regroup(buf[..k], buf[k..], Concat(chunks[1..]));
      StreamIsFaithful(buf[k..], chunks[1..]);
      if Releases(buf) {
        WholeBuffer(buf, Concat(chunks[1..]));
      } else {
        forall i: nat | i < k && HasRef(t, i) ensures Slash(t, i) < k { SplitShowsRef(buf, t, i); }
      }
      assert Shows(buf[..k], u);
      PieceStep(buf[..k], u, Stream(buf[k..], chunks[1..]));
    }
  }

  lemma WholeBuffer(buf: string, rest: string)
    ensures buf[..|buf|] == buf && buf[|buf|..] + rest == rest
  {
  }

  lemma {:induction false} UnfiredPartsNothing(carry: string, chunks: seq<string>)
    requires !ReleaseFires(carry, chunks)
    ensures !ReleaseParts(carry, chunks)
    decreases |chunks|
  {
    if chunks != [] {
      var buf := carry + chunks[0];
      UnfiredPartsNothing(buf[SafeSplit(buf)..], chunks[1..]);
    }
  }

  /** Whatever the chunks, short of a release, no complete reference is written. */
  lemma NothingCompleteIsWritten(chunks: seq<string>)
    requires !ReleaseFires([], chunks)
    ensures !ContainsRef(Stream([], chunks))
  {
    UnfiredPartsNothing([], chunks);
    StreamIsFaithful([], chunks);
  }

  // ---- With releases: exactly when one gets through -----------------------------------------

  /** From a position the masker comes to, it goes on as from the start. */
  lemma {:induction false} MaskFromReached(s: string, i: nat) returns (before: string)
    requires i <= |s| && Reached(s, i)
    ensures Mask(s) == before + Mask(s[i..])
    decreases |s|
  {
    if i == 0 {
      before := "";
      NothingBefore(Mask(s));
      assert s[0..] == s;
    } else {
      var n := Stride(s);
      var rest := MaskFromReached(s[n..], i - n);
      var head := if HasRef(s, 0) then MASKED else [s[0]];
      before := head + rest;
      assert s[n..][i - n..] == s[i..];
      Regroup(head, rest, Mask(s[i..]));
    }
  }

  /** Before the first marker the masker changes nothing. */
  lemma {:induction false} MaskRawStart(s: string, n: nat)
    requires n <= |s| && forall i: nat :: i < n ==> !MarkerAt(s, i)
    ensures |Mask(s)| >= n && Mask(s)[..n] == s[..n]
    decreases n
  {
    if n > 0 {
      forall i: nat | i < n - 1 ensures !MarkerAt(s[1..], i) { MarkerShift(s, 1, i); }
      MaskRawStart(s[1..], n - 1);
      assert Mask(s)[..n] == [s[0]] + Mask(s[1..])[..n - 1];
      assert s[..n] == [s[0]] + s[1..][..n - 1];
    }
  }

  ghost predicate Markerless(t: string, n: nat) {
    n <= |t| && forall i: nat :: i < n ==> !MarkerAt(t, i)
  }

  predicate StartsAs(out: string, t: string, n: nat)
    requires n <= |t|
  {
    |out| >= n && out[..n] == t[..n]
  }

  /** Nor does the stream, however it is cut up and whatever is released. */
  lemma {:induction false} StreamRawStart(carry: string, chunks: seq<string>, n: nat)
    requires Markerless(carry + Concat(chunks), n)
    ensures StartsAs(Stream(carry, chunks), carry + Concat(chunks), n)
    decreases |chunks|
  {
    if chunks == [] {
      NothingAfter(carry);
      MaskRawStart(carry, n);
    } else {
      var buf, u := carry + chunks[0], Concat(chunks[1..]);
      var k := SafeSplit(buf);
      Regroup(carry, chunks[0], u);
      if n > k {
        TailMarkerless(buf, u, k, n);
        StreamRawStart(buf[k..], chunks[1..], n - k);
      }
      RawStart(buf, u, k, n, Stream(buf[k..], chunks[1..]));
    }
  }

  lemma TailMarkerless(buf: string, u: string, k: nat, n: nat)
    requires k <= |buf| && k < n && Markerless(buf + u, n)
    ensures Markerless(buf[k..] + u, n - k)
  {
    var t := buf + u;
    DropPast(buf, u, k);
    forall i: nat | i < n - k ensures !MarkerAt(t[k..], i) { MarkerShift(t, k, i); }
  }

  lemma RawStart(buf: string, u: string, k: nat, n: nat, rest: string)
    requires k <= |buf| && Markerless(buf + u, n) && (n > k ==> StartsAs(rest, buf[k..] + u, n - k))
    ensures StartsAs(Mask(buf[..k]) + rest, buf + u, n)
  {
    var t, p := buf + u, buf[..k];
    assert p == t[..k];
    forall i: nat | i < k && i < n ensures !MarkerAt(p, i) { MarkerInPrefix(t, k, i); }
    if n <= k {
      MaskRawStart(p, n);
      StartsWithin(Mask(p), rest, t, k, n);
    } else {
      MarkerlessUnmasked(p);
      DropPast(buf, u, k);
      StartsBeyond(p, rest, t, k, n);
    }
  }

  lemma StartsWithin(p: string, rest: string, t: string, k: nat, n: nat)
    requires n <= k <= |t| && |p| >= n && p[..n] == t[..k][..n]
    ensures |p + rest| >= n && (p + rest)[..n] == t[..n]
  {
    assert (p + rest)[..n] == p[..n];
  }

  lemma StartsBeyond(p: string, rest: string, t: string, k: nat, n: nat)
    requires k < n <= |t| && p == t[..k] && |rest| >= n - k && rest[..n - k] == t[k..][..n - k]
    ensures |p + rest| >= n && (p + rest)[..n] == t[..n]
  {
    assert (p + rest)[..n] == p + rest[..n - k];
    assert t[..n] == t[..k] + t[k..][..n - k];
  }

  lemma {:induction false} MarkerlessUnmasked(p: string)
    requires forall i: nat :: i < |p| ==> !MarkerAt(p, i)
    ensures Mask(p) == p
    decreases |p|
  {
    if p != [] {
      forall i: nat | i < |p| - 1 ensures !MarkerAt(p[1..], i) { MarkerShift(p, 1, i); }
      MarkerlessUnmasked(p[1..]);
      HeadAndTail(p);
    }
  }

  /** Up to its separator a reference holds no second marker. */
  lemma NoMarkerBefore(t: string, i: nat, j: nat)
    requires HasRef(t, i) && i < j <= Slash(t, i)
    ensures !MarkerAt(t, j)
  {
    if MarkerAt(t, j) { SlashBeforeMarker(t, i, j); }
  }

  /** A reference parted by a release is written in full: its beginning goes out raw with the released
      buffer, and what follows up to the separator goes out raw after it. */
  lemma PartedIsWritten(buf: string, chunks: seq<string>, i: nat)
    requires i < |buf| && Reached(buf, i) && HasRef(buf + Concat(chunks), i) && Slash(buf + Concat(chunks), i) >= |buf|
    ensures ContainsRef(Mask(buf) + Stream("", chunks))
  {
    var t := buf + Concat(chunks);
    RestGoesOut(buf, chunks, i, Slash(t, i) + 1 - |buf|);
    PartedText(buf, Concat(chunks), Stream("", chunks), t, i);
  }

  lemma PartedText(buf: string, u: string, out: string, t: string, i: nat)
    requires t == buf + u && i < |buf| && Reached(buf, i) && HasRef(t, i) && Slash(t, i) >= |buf|
    requires var n := Slash(t, i) + 1 - |buf|; n <= |u| && n <= |out| && out[..n] == u[..n]
    ensures ContainsRef(Mask(buf) + out)
  {
    assert t[..|buf|] == buf;
    var before := BeginningGoesOut(buf, t, i);
    BothParts(buf, u, out, t, i, Slash(t, i) + 1);
    ShownAfter(t, i, before, buf[i..], out, Mask(buf));
  }

  lemma ShownAfter(t: string, i: nat, before: string, x: string, out: string, masked: string)
    requires HasRef(t, i) && masked == before + x
    requires var n := Slash(t, i) + 1 - i; |x + out| >= n && (x + out)[..n] == t[i..Slash(t, i) + 1]
    ensures ContainsRef(masked + out)
  {
    ShownRef(t, i, before, x + out, Slash(t, i) + 1 - i);
    Regroup(before, x, out);
  }

  lemma BeginningGoesOut(buf: string, t: string, i: nat) returns (before: string)
    requires buf <= t && i < |buf| && Reached(buf, i) && HasRef(t, i) && |buf| <= Slash(t, i)
    ensures Mask(buf) == before + buf[i..]
  {
    before := MaskFromReached(buf, i);
    NoSlashBefore(t, i, buf);
    SlashlessUnmasked(buf[i..]);
  }

  lemma RestGoesOut(buf: string, chunks: seq<string>, i: nat, n: nat)
    requires var t := buf + Concat(chunks);
      i < |buf| && HasRef(t, i) && Slash(t, i) >= |buf| && n == Slash(t, i) + 1 - |buf|
    ensures n <= |Concat(chunks)| && |Stream("", chunks)| >= n && Stream("", chunks)[..n] == Concat(chunks)[..n]
  {
    RestMarkerless(buf, Concat(chunks), buf + Concat(chunks), i, n);
    NothingBefore(Concat(chunks));
    StreamRawStart("", chunks, n);
  }

  lemma RestMarkerless(buf: string, u: string, t: string, i: nat, n: nat)
    requires t == buf + u && i < |buf| && HasRef(t, i) && Slash(t, i) >= |buf| && n == Slash(t, i) + 1 - |buf|
    ensures Markerless(u, n)
  {
    assert t[|buf|..] == u;
    forall j: nat | j < n ensures !MarkerAt(u, j) {
      NoMarkerBefore(t, i, |buf| + j);
      MarkerShift(t, |buf|, j);
    }
  }

  lemma BothParts(buf: string, u: string, out: string, t: string, i: nat, e: nat)
    requires t == buf + u && i <= |buf| <= e <= |t|
    requires var n := e - |buf|; n <= |out| && out[..n] == u[..n]
    ensures |buf[i..] + out| >= e - i && (buf[i..] + out)[..e - i] == t[i..e]
  {
    var n := e - |buf|;
    assert (buf[i..] + out)[..e - i] == buf[i..] + out[..n];
    assert t[i..e] == buf[i..] + u[..n];
  }

  lemma NoSlashBefore(t: string, i: nat, buf: string)
    requires buf <= t && i < |buf| && HasRef(t, i) && |buf| <= Slash(t, i)
    ensures '/' !in buf[i..]
  {
    assert t[i..i + 6] == MARKER;
    forall k | i <= k < |buf| ensures buf[k] != '/' {
      if k < i + 6 { assert t[k] == t[i..i + 6][k - i] == MARKER[k - i]; }
    }
  }

  /** A reference with its separator, after anything and before anything. */
  lemma ShownRef(t: string, i: nat, before: string, rest: string, n: nat)
    requires HasRef(t, i) && n == Slash(t, i) + 1 - i && n <= |rest| && rest[..n] == t[i..i + n]
    ensures ContainsRef(before + rest)
  {
    RefInPrefix(t, i + n, i);
    assert t[..i + n][i..] == rest[..n];
    RefShift(t[..i + n], i, 0);
    RefInPrefix(rest, n, 0);
    assert (before + rest)[|before|..] == rest;
    RefShift(before + rest, |before|, 0);
    assert HasRef(before + rest, |before|);
  }

  lemma {:induction false} PartingShows(carry: string, chunks: seq<string>)
    requires ReleaseParts(carry, chunks)
    ensures ContainsRef(Stream(carry, chunks))
    decreases |chunks|
  {
    var buf := carry + chunks[0];
    var rest := chunks[1..];
    if Releases(buf) && !Shows(buf, Concat(rest)) {
      var i: nat :| i < |buf| && Reached(buf, i) && HasRef(buf + Concat(rest), i) &&
        Slash(buf + Concat(rest), i) >= |buf|;
      PartedIsWritten(buf, rest, i);
      WholeBuffer(buf, "");
    } else {
      var k := SafeSplit(buf);
      PartingShows(buf[k..], rest);
      LaterRef(Mask(buf[..k]), Stream(buf[k..], rest));
    }
  }

  lemma LaterRef(a: string, b: string)
    requires ContainsRef(b)
    ensures ContainsRef(a + b)
  {
    var i :| 0 <= i < |b| && HasRef(b, i);
    assert (a + b)[|a|..] == b;
    RefShift(a + b, |a|, i);
  }

  /** Of every stream and every way it is cut up, releases included: a complete reference is written if
      and only if some release parts one the masker comes to from its separator. */
  lemma WrittenExactlyWhenParted(chunks: seq<string>)
    ensures ContainsRef(Stream([], chunks)) <==> ReleaseParts([], chunks)
  {
    if ReleaseParts([], chunks) { PartingShows([], chunks); } else { StreamIsFaithful([], chunks); }
  }

  // ---- Chunking leaves no trace -----------------------------------------------------------

  /** No marker starts strictly inside another reference's match. */
  ghost predicate Clean(s: string) {
    forall i: nat, j: nat :: HasRef(s, i) && i < j < RefEnd(s, i) ==> !MarkerAt(s, j)
  }

  /** No run of path characters after a marker passes the carry bound. */
  ghost predicate Short(s: string) {
    forall i: nat :: MarkerAt(s, i) ==> PathEnd(s, i + 6) - i <= MAX_CARRY
  }

  lemma SplitKeepsRef(buf: string, t: string, i: nat)
    requires buf <= t && Clean(t) && !Releases(buf) && i < SafeSplit(buf) && HasRef(t, i)
    ensures RefEnd(t, i) <= SafeSplit(buf)
  {
    var k, last := SafeSplit(buf), LastMarker(buf, |buf|);
    assert t[..|buf|] == buf;
    if InProgress(buf) {
      MarkerInPrefix(t, |buf|, last);
    } else {
      if |buf| < i + 6 { SplitBeforePartial(buf, t, i); }
      MarkerInPrefix(t, |buf|, i);
      StopsInBuffer(buf, t, last);
    }
  }

  lemma CleanTail(s: string, k: nat)
    requires k <= |s|
    ensures Clean(s) ==> Clean(s[k..])
    ensures Short(s) ==> Short(s[k..])
  {
    if Clean(s) {
      forall i: nat, j: nat | HasRef(s[k..], i) && i < j < RefEnd(s[k..], i) ensures !MarkerAt(s[k..], j) {
        RefShift(s, k, i);
        MarkerShift(s, k, j);
      }
    }
    if Short(s) {
      forall i: nat | MarkerAt(s[k..], i) ensures PathEnd(s[k..], i + 6) - i <= MAX_CARRY {
        MarkerShift(s, k, i);
        PathShift(s, k, i + 6);
      }
    }
  }

  /** A tail that can grow is part of a run that reaches the end of the buffer. */
  lemma InProgressRunsOn(buf: string, t: string)
    requires buf <= t && InProgress(buf)
    ensures var last := LastMarker(buf, |buf|); MarkerAt(t, last) && PathEnd(t, last + 6) >= |buf|
  {
    var last := LastMarker(buf, |buf|);
    assert t[..|buf|] == buf;
    MarkerInPrefix(t, |buf|, last);
    assert forall k :: last + 6 <= k < |buf| ==> t[k] == buf[k] == buf[last + 6..][k - (last + 6)];
  }

  /** A release needs a run longer than the bound. */
  lemma ShortNeverReleases(buf: string, t: string)
    requires buf <= t && Short(t)
    ensures !Releases(buf)
  {
    if InProgress(buf) { InProgressRunsOn(buf, t); }
  }

  lemma {:induction false} ShortNeverFires(carry: string, chunks: seq<string>)
    requires Short(carry + Concat(chunks))
    ensures !ReleaseFires(carry, chunks)
    decreases |chunks|
  {
    if chunks != [] {
      var t, buf := carry + Concat(chunks), carry + chunks[0];
      Regroup(carry, chunks[0], Concat(chunks[1..]));
      ShortNeverReleases(buf, t);
      DropPast(buf, Concat(chunks[1..]), SafeSplit(buf));
      CleanTail(t, SafeSplit(buf));
      ShortNeverFires(buf[SafeSplit(buf)..], chunks[1..]);
    }
  }

  /** Some release cuts a reference. */
  ghost predicate ReleaseCuts(carry: string, chunks: seq<string>)
    decreases |chunks|
  {
    chunks != [] &&
    (var buf := carry + chunks[0];
     || (Releases(buf) && CutsRef(buf + Concat(chunks[1..]), |buf|))
     || ReleaseCuts(buf[SafeSplit(buf)..], chunks[1..]))
  }

  /** A reference reaches across position k. */
  ghost predicate CutsRef(t: string, k: nat) {
    exists i: nat :: i < k && HasRef(t, i) && RefEnd(t, i) > k
  }

  /** Cut up in any way in which no release cuts a reference, a clean stream is written as if masked at
      once. */
  lemma {:induction false} CleanStreamIsChunkFree(carry: string, chunks: seq<string>)
    requires Clean(carry + Concat(chunks)) && !ReleaseCuts(carry, chunks)
    ensures Stream(carry, chunks) == Mask(carry + Concat(chunks))
    decreases |chunks|
  {
    var t := carry + Concat(chunks);
    if chunks == [] {
      assert t == carry;
    } else {
      var buf := carry + chunks[0];
      var k := SafeSplit(buf);
      Regroup(carry, chunks[0], Concat(chunks[1..]));
      DropPast(buf, Concat(chunks[1..]), k);
      assert t[..k] == buf[..k];
      forall i | 0 <= i < k && HasRef(t, i) ensures RefEnd(t, i) <= k {
        if !Releases(buf) { SplitKeepsRef(buf, t, i); }
      }
      MaskSplits(t, k);
      CleanTail(t, k);
      CleanStreamIsChunkFree(buf[k..], chunks[1..]);
    }
  }

  lemma {:induction false} UnfiredCutsNothing(carry: string, chunks: seq<string>)
    requires !ReleaseFires(carry, chunks)
    ensures !ReleaseCuts(carry, chunks)
    decreases |chunks|
  {
    if chunks != [] {
      var buf := carry + chunks[0];
      UnfiredCutsNothing(buf[SafeSplit(buf)..], chunks[1..]);
    }
  }

  // ---- Exactly when ------------------------------------------------------------------------

  lemma StreamStarts(carry: string, chunks: seq<string>)
    requires carry != []
    ensures Stream(carry, chunks) != [] && (Stream(carry, chunks)[0] == carry[0] || Stream(carry, chunks)[0] == '*')
    decreases |chunks|
  {
    if chunks == [] {
      MaskStarts(carry);
    } else {
      var buf := carry + chunks[0];
      var k := SafeSplit(buf);
      if k == 0 { StreamStarts(buf[k..], chunks[1..]); } else { MaskStarts(buf[..k]); }
    }
  }

  /** A marker strictly inside the match at i is met by the match's end: it stops at the marker's `:`. */
  lemma InnerMarkerEnds(s: string, i: nat, j: nat)
    requires HasRef(s, i) && i < j < RefEnd(s, i) && MarkerAt(s, j)
    ensures RefEnd(s, i) == j + 5 && Slash(s, i) < j && s[j + 5] == ':'
  {
    SlashBeforeMarker(s, i, j);
    var w := s[j..j + 6];
    assert forall k :: 0 <= k < 6 ==> s[j + k] == w[k];
    assert forall k :: 0 <= k < 5 ==> IsPath(w[k]);
    assert w[5] == ':' && !IsPath(':');
    RunsStop(s, i + 6, j + 5);
  }

  /** Cut right after a marker nested in the leftmost such match, the stream writes that marker, or a
      mask for it, where masking at once writes its `:`. */
  lemma NestedMarkerShows(s: string, i: nat, j: nat)
    requires HasRef(s, i) && i < j < RefEnd(s, i) && MarkerAt(s, j)
    requires forall o: nat :: o < i && HasRef(s, o) ==> RefEnd(s, o) <= i
    ensures Stream([], [s[..j + 6], s[j + 6..]]) != Mask(s)
  {
    InnerMarkerEnds(s, i, j);
    WholeAroundNested(s, i, j);
    StreamBeforeNested(s, i, j);
    SplitAtNested(s, j);
    var carry := s[j..j + 6];
    var rest, x := Stream(carry, [s[j + 6..]]), Mask(s[..i]) + MASKED;
    StreamStarts(carry, [s[j + 6..]]);
    assert carry[0] == 'v';
    assert (x + rest)[|x|] == rest[0];
  }

  lemma WholeAroundNested(s: string, i: nat, j: nat)
    requires HasRef(s, i) && RefEnd(s, i) == j + 5 && j + 5 < |s| && s[j + 5] == ':'
    requires forall o: nat :: o < i && HasRef(s, o) ==> RefEnd(s, o) <= i
    ensures var x := Mask(s[..i]) + MASKED; |Mask(s)| > |x| && Mask(s)[|x|] == ':'
  {
    var e := j + 5;
    MaskSplits(s, i);
    MaskFromRef(s, i);
    assert s[e..][0] == ':';
    ColonStays(s[e..]);
    Seam(Mask(s[..i]), MASKED, Mask(s[e..]));
  }

  lemma Seam(a: string, b: string, c: string)
    requires c != []
    ensures |a + (b + c)| > |a + b| && (a + (b + c))[|a + b|] == c[0]
  {
  }

  lemma MaskFromRef(s: string, i: nat)
    requires HasRef(s, i)
    ensures Mask(s[i..]) == MASKED + Mask(s[RefEnd(s, i)..])
  {
    var u := s[i..];
    RefShift(s, i, 0);
    MaskAtRef(u);
    assert u[RefEnd(u, 0)..] == s[RefEnd(s, i)..];
  }

  lemma ColonStays(s: string)
    requires s != [] && s[0] == ':'
    ensures Mask(s) != [] && Mask(s)[0] == ':'
  {
    MarkerFirst(s, 0);
  }

  lemma StreamBeforeNested(s: string, i: nat, j: nat)
    requires HasRef(s, i) && Slash(s, i) < j <= RefEnd(s, i) && j <= |s|
    requires forall o: nat :: o < i && HasRef(s, o) ==> RefEnd(s, o) <= i
    ensures Mask(s[..j]) == Mask(s[..i]) + MASKED
  {
    var p := s[..j];
    RefInPrefix(s, j, i);
    forall o | 0 <= o < i && HasRef(p, o) ensures RefEnd(p, o) <= i { RefInPrefix(s, j, o); }
    MaskSplits(p, i);
    assert p[..i] == s[..i];
    MaskFromRef(p, i);
    assert p[j..] == "" && Mask("") == "";
    NothingAfter(MASKED);
  }

  lemma SplitAtNested(s: string, j: nat)
    requires MarkerAt(s, j)
    ensures Stream([], [s[..j + 6], s[j + 6..]]) == Mask(s[..j]) + Stream(s[j..j + 6], [s[j + 6..]])
  {
    var buf := s[..j + 6];
    MarkerInPrefix(s, j + 6, j);
    assert LastMarker(buf, |buf|) == j;
    assert buf[j + 6..] == [];
    assert SafeSplit(buf) == j;
    assert buf[..j] == s[..j] && buf[j..] == s[j..j + 6];
    assert [] + buf == buf;
    assert [buf, s[j + 6..]][1..] == [s[j + 6..]];
  }

  lemma {:induction false} LeftmostNesting(s: string, i: nat, j: nat) returns (i': nat, j': nat)
    requires HasRef(s, i) && i < j < RefEnd(s, i) && MarkerAt(s, j)
    ensures HasRef(s, i') && i' < j' < RefEnd(s, i') && MarkerAt(s, j')
    ensures forall o: nat :: o < i' && HasRef(s, o) ==> RefEnd(s, o) <= i'
    decreases i
  {
    if o: nat :| o < i && HasRef(s, o) && i < RefEnd(s, o) {
      i', j' := LeftmostNesting(s, o, i);
    } else {
      i', j' := i, j;
    }
  }

  /** No release the stream can bring about cuts a reference, wherever chunks end. */
  ghost predicate Uncut(s: string) {
    forall k: nat :: k <= |s| && Releases(s[..k]) ==> !CutsRef(s, k)
  }

  /** What comes before the last marker does not bear on a release. */
  lemma ReleasesAfter(pre: string, buf: string)
    requires Releases(buf)
    ensures Releases(pre + buf)
  {
    var all, last := pre + buf, LastMarker(buf, |buf|);
    assert all[|pre|..] == buf;
    MarkerShift(all, |pre|, last);
    forall j: nat | |pre| + last < j <= |all| ensures !MarkerAt(all, j) { MarkerShift(all, |pre|, j - |pre|); }
    assert LastMarker(all, |all|) == |pre| + last;
    assert all[|pre| + last + 6..] == buf[last + 6..];
  }

  lemma CutAfter(pre: string, t: string, k: nat)
    requires k <= |t| && CutsRef(t, k)
    ensures CutsRef(pre + t, |pre| + k)
  {
    var i: nat :| i < k && HasRef(t, i) && RefEnd(t, i) > k;
    assert (pre + t)[|pre|..] == t;
    RefShift(pre + t, |pre|, i);
  }

  lemma {:induction false} UncutCutsNothing(pre: string, carry: string, chunks: seq<string>)
    requires Uncut(pre + (carry + Concat(chunks)))
    ensures !ReleaseCuts(carry, chunks)
    decreases |chunks|
  {
    if chunks != [] {
      var buf, u := carry + chunks[0], Concat(chunks[1..]);
      var k := SafeSplit(buf);
      Regroup(carry, chunks[0], u);
      Regroup(pre, buf, u);
      assert (pre + (buf + u))[..|pre + buf|] == pre + buf;
      if Releases(buf) { ReleasesAfter(pre, buf); }
      if CutsRef(buf + u, |buf|) { CutAfter(pre, buf + u, |buf|); }
      CutAt(buf, k);
      Regroup(buf[..k], buf[k..], u);
      Regroup(pre, buf[..k], buf[k..] + u);
      UncutCutsNothing(pre + buf[..k], buf[k..], chunks[1..]);
    }
  }

  /** A clean text masked in two parts shows a reference across the cut. */
  lemma CutShows(s: string, k: nat, i: nat)
    requires Clean(s) && k <= |s| && i < k && HasRef(s, i) && RefEnd(s, i) > k
    ensures Mask(s[..k]) + Mask(s[k..]) != Mask(s)
  {
    var e, before, after := RefEnd(s, i), Mask(s[..i]), Mask(s[RefEnd(s, i)..]);
    EndsBefore(s, i);
    MaskSplits(s, i);
    MaskFromRef(s, i);
    RestOfRefIsRaw(s, i, k);
    if Slash(s, i) < k {
      StreamBeforeNested(s, i, k);
      LongerApart(before + MASKED, s[k..e], after, before);
    } else {
      StartOfRefIsRaw(s, i, k);
      MarkerFirst(s, i);
      RawApart(before, s[i..k], s[k..e], after);
    }
  }

  lemma EndsBefore(s: string, i: nat)
    requires Clean(s) && HasRef(s, i)
    ensures forall o: nat :: o < i && HasRef(s, o) ==> RefEnd(s, o) <= i
  {
  }

  lemma LongerApart(a: string, x: string, after: string, before: string)
    requires a == before + MASKED && x != []
    ensures a + (x + after) != before + (MASKED + after)
  {
    assert |a + (x + after)| > |before + (MASKED + after)|;
  }

  lemma RawApart(before: string, x: string, y: string, after: string)
    requires x != [] && x[0] == 'v'
    ensures before + x + (y + after) != before + (MASKED + after)
  {
    assert (before + x + (y + after))[|before|] == 'v';
    assert (before + (MASKED + after))[|before|] == '*';
  }

  lemma RestOfRefIsRaw(s: string, i: nat, k: nat)
    requires Clean(s) && HasRef(s, i) && i < k < RefEnd(s, i)
    ensures var e := RefEnd(s, i); Mask(s[k..]) == s[k..e] + Mask(s[e..])
  {
    var e, u := RefEnd(s, i), s[k..];
    forall o: nat | o < e - k ensures !MarkerAt(u, o) && !MarkerAt(s[k..e], o) {
      MarkerShift(s, k, o);
      assert s[k..e] == u[..e - k];
      MarkerInPrefix(u, e - k, o);
    }
    MaskSplits(u, e - k);
    assert u[..e - k] == s[k..e] && u[e - k..] == s[e..];
    MarkerlessUnmasked(s[k..e]);
  }

  lemma StartOfRefIsRaw(s: string, i: nat, k: nat)
    requires Clean(s) && HasRef(s, i) && i < k <= Slash(s, i)
    ensures Mask(s[..k]) == Mask(s[..i]) + s[i..k]
  {
    var p := s[..k];
    forall o | 0 <= o < i && HasRef(p, o) ensures RefEnd(p, o) <= i { RefInPrefix(s, k, o); }
    MaskSplits(p, i);
    assert p[..i] == s[..i] && p[i..] == s[i..k];
    NoSlashBefore(s, i, p);
    SlashlessUnmasked(p[i..]);
  }

  /** Where a release of what stands before k cuts a reference, the two chunks that meet at k show it. */
  lemma CutReleaseShows(s: string, k: nat) returns (chunks: seq<string>)
    requires Clean(s) && k <= |s| && Releases(s[..k]) && CutsRef(s, k)
    ensures Concat(chunks) == s && Stream([], chunks) != Mask(s)
  {
    var a, b := s[..k], s[k..];
    chunks := [a, b];
    ConcatTwo(a, b);
    CutAt(s, k);
    var i: nat :| i < k && HasRef(s, i) && RefEnd(s, i) > k;
    CutShows(s, k, i);
    LastChunkIsMasked(b, s, k);
    NothingBefore(a);
    WholeBuffer(a, "");
    assert [a, b][1..] == [b];
  }

  lemma LastChunkIsMasked(b: string, s: string, k: nat)
    requires Clean(s) && k <= |s| && b == s[k..]
    ensures Stream("", [b]) == Mask(b)
  {
    CleanTail(s, k);
    NothingBefore(b);
    assert [b][1..] == [] && Concat([b]) == b;
    assert "" + Concat([b]) == b;
    assert !CutsRef(b + Concat([]), |b|);
    CleanStreamIsChunkFree("", [b]);
  }

  /** Exactly when chunking leaves no trace, of any stream: every way of cutting it up writes what masking
      it at once writes if and only if no marker starts strictly inside another reference's match, and
      nowhere would a release cut a reference. */
  lemma ChunkFreeExactly(s: string)
    ensures (forall chunks :: Concat(chunks) == s ==> Stream([], chunks) == Mask(s)) <==> Clean(s) && Uncut(s)
  {
    if !Clean(s) {
      var chunks := UncleanShows(s);
    } else if k: nat :| k <= |s| && Releases(s[..k]) && CutsRef(s, k) {
      var chunks := CutReleaseShows(s, k);
    } else {
      forall chunks | Concat(chunks) == s ensures Stream([], chunks) == Mask(s) {
        NothingBefore(s);
        UncutCutsNothing([], [], chunks);
        CleanStreamIsChunkFree([], chunks);
      }
    }
  }

  /** So it is of a stream of references within the bound if and only if it is clean. */
  lemma ChunkFreeExactlyWhenClean(s: string)
    requires Short(s)
    ensures Clean(s) <==> forall chunks :: Concat(chunks) == s ==> Stream([], chunks) == Mask(s)
  {
    forall k: nat | k <= |s| ensures !Releases(s[..k]) { ShortNeverReleases(s[..k], s); }
    ChunkFreeExactly(s);
  }

  lemma UncleanShows(s: string) returns (chunks: seq<string>)
    requires !Clean(s)
    ensures Concat(chunks) == s && Stream([], chunks) != Mask(s)
  {
    var i: nat, j: nat :| HasRef(s, i) && i < j < RefEnd(s, i) && MarkerAt(s, j);
    i, j := LeftmostNesting(s, i, j);
    NestedMarkerShows(s, i, j);
    var a, b := s[..j + 6], s[j + 6..];
    ConcatTwo(a, b);
    CutAt(s, j + 6);
    chunks := [a, b];
  }

  lemma ConcatTwo(a: string, b: string)
    ensures Concat([a, b]) == a + b
  {
    assert [a, b][1..] == [b] && [b][1..] == [];
    assert Concat([b]) == b + Concat([]) == b;
  }

  // ---- The release lets a reference through ------------------------------------------------

  function Repeat(c: char, n: nat): (s: string)
    ensures |s| == n && forall i :: 0 <= i < n ==> s[i] == c
  {
    seq(n, _ => c)
  }

  lemma {:induction false} SlashlessUnmasked(s: string)
    requires '/' !in s
    ensures Mask(s) == s
    decreases |s|
  {
    if s != [] { SlashlessUnmasked(s[1..]); }
  }

  lemma {:induction false} TooShortUnmasked(s: string)
    requires |s| < 6
    ensures Mask(s) == s
    decreases |s|
  {
    if s != [] { TooShortUnmasked(s[1..]); }
  }

  lemma LongReleases(long: string)
    requires long == MARKER + Repeat('a', 4090) + "vau"
    ensures Releases(long) && '/' !in long
  {
    assert long[0..6] == MARKER;
    assert MarkerAt(long, 0);
    var last := LastMarker(long, |long|);
    assert long[last + 5] == long[last..last + 6][5] == ':';
    assert forall k :: 6 <= k < |long| ==> IsPath(long[k]) && long[k] != ':' && long[k] != '/';
    assert last == 0;
    assert forall k :: 0 <= k < 6 ==> long[k] == MARKER[k] != '/';
  }

  /** Text too short for a marker that ends in `/` is written at once. */
  lemma ShortTailGoesOut(u: string)
    requires 0 < |u| < 6 && u[|u| - 1] == '/'
    ensures Stream("", [u]) == u
  {
    assert "" + u == u;
    forall j: nat | 0 < j <= 5 ensures !EndsWith(u, MARKER[..j]) {
      var w := MARKER[..j];
      assert w[j - 1] == MARKER[j - 1] != '/';
      if j <= |u| { assert u[|u| - j..][j - 1] == u[|u| - 1]; }
    }
    assert PartialMarker(u, 5) == 0;
    assert SafeSplit(u) == |u|;
    assert u[..|u|] == u && u[|u|..] == "";
    TooShortUnmasked(u);
    assert [u][1..] == [] && Stream("", []) == "";
  }

  /** A release can cut a marker in two. With a reference too long to carry in progress, the beginning
      of the next marker goes out with it, and that next reference, however short, is written in full:
      here `vault:x/` after 4090 characters of mount. */
  lemma ReleaseCutsMarker(long: string, last: string)
    requires long == MARKER + Repeat('a', 4090) + "vau" && last == "lt:x/"
    ensures IsShortRef(Concat([long, last]), 4096) && ContainsRef(Stream([], [long, last]))
  {
    LongReleases(long);
    ReleasedStream(long, last);
    ConcatTwo(long, last);
    CutRef(long, last);
  }

  /** `vault:x/` is what stands from i to the end. */
  predicate IsShortRef(s: string, i: nat) {
    |s| == i + 8 && MarkerAt(s, i) && s[i + 6] == 'x' && s[i + 7] == '/'
  }

  lemma CutRef(long: string, last: string)
    requires |long| == 4099 && long[4096..] == "vau" && last == "lt:x/"
    ensures IsShortRef(long + last, 4096) && HasRef(long + last, 4096)
  {
    var out := long + last;
    assert out[4096..4102] == long[4096..] + last[..3];
    assert out[4102] == last[3] && out[4103] == last[4];
    RunsStop(out, 4102, 4103);
  }

  lemma ReleasedStream(long: string, last: string)
    requires Releases(long) && '/' !in long
    requires 0 < |last| < 6 && last[|last| - 1] == '/'
    ensures Stream([], [long, last]) == long + last
  {
    assert [] + long == long && long[..|long|] == long && long[|long|..] == "";
    SlashlessUnmasked(long);
    assert [long, last][1..] == [last];
    ShortTailGoesOut(last);
  }
}
