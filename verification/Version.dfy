/** Plain MAJOR.MINOR.PATCH versions, and the window a deprecation must leave. */
module Version {
  import opened Names
  import opened Seqs
  import opened Wrappers

  /** The largest int; integers are 64 bits wide. */
  const MAX_INT := 0x7fff_ffff_ffff_ffff

  datatype Version = Version(major: nat, minor: nat, patch: nat)

  function Print(v: Version): string {
    Decimal(v.major) + "." + Decimal(v.minor) + "." + Decimal(v.patch)
  }

  predicate Fits(v: Version) {
    v.major <= MAX_INT && v.minor <= MAX_INT && v.patch <= MAX_INT
  }

  // ---- Segments ---------------------------------------------------------------------------

  /** The position of the first dot from i on, or the end. */
  function DotFrom(s: string, i: nat): (d: nat)
    requires i <= |s|
    ensures i <= d <= |s| && (d < |s| ==> s[d] == '.')
    decreases |s| - i
  {
    if i < |s| && s[i] != '.' then DotFrom(s, i + 1) else i
  }

  /** The segments between dots, from position i on. */
  function Segments(s: string, i: nat): (r: seq<string>)
    requires i <= |s|
    ensures r != []
    decreases |s| - i
  {
    var d := DotFrom(s, i);
    [s[i..d]] + if d == |s| then [] else Segments(s, d + 1)
  }

  ghost predicate NoDot(s: string, i: nat, d: nat) {
    i <= d <= |s| && forall k :: i <= k < d ==> s[k] != '.'
  }

  /** The segment from i ends at d, at a dot or with the string. */
  ghost predicate EndsAt(s: string, i: nat, d: nat) {
    NoDot(s, i, d) && (d < |s| ==> s[d] == '.')
  }

  lemma {:induction false} DotIsUnique(s: string, i: nat, d: nat)
    requires EndsAt(s, i, d)
    ensures DotFrom(s, i) == d
    decreases d - i
  {
    if i < d { DotIsUnique(s, i + 1, d); }
  }

  lemma SegmentEnds(s: string, i: nat, d: nat)
    requires EndsAt(s, i, d)
    ensures Segments(s, i) == [s[i..d]] + if d == |s| then [] else Segments(s, d + 1)
  {
    DotIsUnique(s, i, d);
  }

  /** One numeral of the grammar: digits, with no zero in front of another digit. */
  predicate IsNumeral(seg: string) {
    seg != "" && !(|seg| > 1 && seg[0] == '0') && AllDigits(seg)
  }

  lemma {:induction false} NumeralIsPositive(seg: string)
    requires seg != "" && seg[0] != '0' && AllDigits(seg)
    ensures Number(seg) >= 1
  {
    if |seg| > 1 { NumeralIsPositive(seg[..|seg| - 1]); }
  }

  /** Numerals and natural numbers correspond one to one. */
  lemma {:induction false} NumeralPrintsBack(seg: string)
    requires IsNumeral(seg)
    ensures Decimal(Number(seg)) == seg
  {
    var init, last := seg[..|seg| - 1], seg[|seg| - 1];
    assert seg == init + [last];
    if |seg| > 1 {
      NumeralPrintsBack(init);
      NumeralIsPositive(init);
    }
  }

  // ---- The parser -------------------------------------------------------------------------

  predicate IsSegment(seg: string) {
    IsNumeral(seg) && Number(seg) <= MAX_INT
  }

  function Parsed(s: string): Option<Version> {
    FromSegments(Segments(s, 0))
  }

  /** Three segments, each a numeral that fits an int. */
  function FromSegments(segs: seq<string>): Option<Version> {
    if |segs| == 3 && IsSegment(segs[0]) && IsSegment(segs[1]) && IsSegment(segs[2])
    then Some(Version(Number(segs[0]), Number(segs[1]), Number(segs[2]))) else None
  }

  lemma PrintedSegments(v: Version)
    ensures Segments(Print(v), 0) == [Decimal(v.major), Decimal(v.minor), Decimal(v.patch)]
  {
    JoinedSegments(Decimal(v.major), Decimal(v.minor), Decimal(v.patch));
  }

  lemma JoinedSegments(a: string, b: string, c: string)
    requires AllDigits(a) && AllDigits(b) && AllDigits(c)
    ensures Segments(a + "." + b + "." + c, 0) == [a, b, c]
  {
    var s := a + "." + b + "." + c;
    var i, j := |a|, |a| + 1 + |b|;
    assert s[0..i] == a && s[i] == '.' && s[i + 1..j] == b && s[j] == '.' && s[j + 1..|s|] == c;
    DigitsHoldNoDot(s, 0, i, a);
    DigitsHoldNoDot(s, i + 1, j, b);
    DigitsHoldNoDot(s, j + 1, |s|, c);
    TwoDots(s, 0, i, j);
  }

  lemma TwoDots(s: string, o: nat, i: nat, j: nat)
    requires EndsAt(s, o, i) && i < j && EndsAt(s, i + 1, j) && j < |s| && EndsAt(s, j + 1, |s|)
    ensures Segments(s, o) == [s[o..i], s[i + 1..j], s[j + 1..|s|]]
  {
    SegmentEnds(s, j + 1, |s|);
    SegmentEnds(s, i + 1, j);
    SegmentEnds(s, o, i);
  }

  lemma DigitsHoldNoDot(s: string, i: nat, j: nat, a: string)
    requires i <= j <= |s| && s[i..j] == a && AllDigits(a)
    ensures NoDot(s, i, j)
  {
    forall k | i <= k < j ensures s[k] != '.' { assert s[k] == a[k - i]; }
  }

  lemma LastSegment(s: string, i: nat)
    requires i <= |s|
    ensures |Segments(s, i)| == 1 <==> DotFrom(s, i) == |s|
    ensures DotFrom(s, i) == |s| ==> Segments(s, i) == [s[i..]]
  {
    if DotFrom(s, i) == |s| { assert s[i..|s|] == s[i..]; }
  }

  lemma AroundDot(s: string, i: nat, d: nat)
    requires i <= d < |s| && s[d] == '.'
    ensures s[i..] == s[i..d] + "." + s[d + 1..]
  {
  }

  lemma NextSegment(s: string, i: nat, segs: seq<string>)
    requires i <= |s| && segs == Segments(s, i) && |segs| > 1
    ensures var d := DotFrom(s, i); d < |s| && segs[1..] == Segments(s, d + 1) && s[i..] == segs[0] + "." + s[d + 1..]
  {
    LastSegment(s, i);
    var d := DotFrom(s, i);
    var first, more := s[i..d], Segments(s, d + 1);
    assert segs == [first] + more;
    TailOf(first, more);
    AroundDot(s, i, d);
  }

  lemma ThreeSegments(s: string, segs: seq<string>)
    requires segs == Segments(s, 0) && |segs| == 3
    ensures s == segs[0] + "." + segs[1] + "." + segs[2]
  {
    NextSegment(s, 0, segs);
    var i, rest := DotFrom(s, 0) + 1, segs[1..];
    TwoSegments(s, i, rest);
    assert s[0..] == s && rest[0] == segs[1] && rest[1] == segs[2];
    Regroup(segs[0] + ".", segs[1] + ".", segs[2]);
    Regroup(segs[0] + ".", segs[1], ".");
  }

  lemma TwoSegments(s: string, i: nat, segs: seq<string>)
    requires i <= |s| && segs == Segments(s, i) && |segs| == 2
    ensures s[i..] == segs[0] + "." + segs[1]
  {
    NextSegment(s, i, segs);
    LastSegment(s, DotFrom(s, i) + 1);
  }

  lemma ParsedPrints(s: string)
    requires Parsed(s).Some?
    ensures Fits(Parsed(s).value) && Print(Parsed(s).value) == s
  {
    var segs := Segments(s, 0);
    NumeralPrintsBack(segs[0]);
    NumeralPrintsBack(segs[1]);
    NumeralPrintsBack(segs[2]);
    ThreeSegments(s, segs);
  }

  lemma PrintedParses(v: Version)
    ensures Fits(v) ==> Parsed(Print(v)) == Some(v)
    ensures !Fits(v) ==> Parsed(Print(v)) == None
  {
    PrintedSegments(v);
    DecimalIsNumeral(v.major);
    DecimalIsNumeral(v.minor);
    DecimalIsNumeral(v.patch);
  }

  lemma DecimalIsNumeral(n: nat)
    ensures IsNumeral(Decimal(n)) && Number(Decimal(n)) == n
  {
    NumberOfDecimal(n);
  }

  /** The parser accepts exactly the printed forms of versions that fit, and gives the version back. */
  lemma ParsesExactly(s: string, v: Version)
    ensures Parsed(s) == Some(v) <==> Fits(v) && Print(v) == s
  {
    PrintedParses(v);
    if Parsed(s).Some? { ParsedPrints(s); }
  }

  method ParseSegment(seg: string) returns (n: Option<nat>)
    ensures n.Some? <==> IsSegment(seg)
    ensures n.Some? ==> n.value == Number(seg)
  {
    if seg == "" || (|seg| > 1 && seg[0] == '0') { return None; }
    for j := 0 to |seg|
      invariant AllDigits(seg[..j])
    {
      if seg[j] < '0' || seg[j] > '9' { return None; }
    }
    assert seg[..|seg|] == seg;
    n := if Number(seg) > MAX_INT then None else Some(Number(seg));
  }

  /** The numbers read are those of the segments they were read from, each a good one. */
  ghost predicate Good(done: seq<string>, parts: seq<nat>) {
    |parts| == |done| && forall k :: 0 <= k < |done| ==> Reads(done[k], parts[k])
  }

  ghost predicate Reads(seg: string, n: nat) {
    IsSegment(seg) && n == Number(seg)
  }

  /** The segments from `start` on, of which there are none past the end. */
  ghost function Unread(s: string, start: nat): seq<string>
    requires start <= |s| + 1
  {
    if start <= |s| then Segments(s, start) else []
  }

  lemma UnreadNext(s: string, start: nat, i: nat)
    requires EndsAt(s, start, i)
    ensures Unread(s, start) == [s[start..i]] + Unread(s, i + 1)
  {
    SegmentEnds(s, start, i);
  }

  /** What comes of the numbers read so far and the segments left. */
  ghost function Continued(parts: seq<nat>, segs: seq<string>): Option<Version>
    decreases |segs|
  {
    if segs == [] then (if |parts| == 3 then Some(Version(parts[0], parts[1], parts[2])) else None)
    else if |parts| >= 3 || !IsSegment(segs[0]) then None
    else Continued(parts + [Number(segs[0])], segs[1..])
  }

  lemma NotParsed(done: seq<string>, segs: seq<string>)
    requires segs != [] && (|done| >= 3 || !IsSegment(segs[0]))
    ensures FromSegments(done + segs) == None
  {
    assert (done + segs)[|done|] == segs[0];
  }

  lemma AllRead(done: seq<string>, parts: seq<nat>)
    requires Good(done, parts)
    ensures FromSegments(done) == if |parts| == 3 then Some(Version(parts[0], parts[1], parts[2])) else None
  {
    if |parts| == 3 { assert Reads(done[0], parts[0]) && Reads(done[1], parts[1]) && Reads(done[2], parts[2]); }
  }

  lemma GoodNext(done: seq<string>, parts: seq<nat>, seg: string)
    requires Good(done, parts) && IsSegment(seg)
    ensures Good(done + [seg], parts + [Number(seg)])
  {
    assert Reads(seg, Number(seg));
  }

  lemma {:induction false} ContinuedParses(done: seq<string>, parts: seq<nat>, segs: seq<string>)
    requires Good(done, parts)
    ensures Continued(parts, segs) == FromSegments(done + segs)
    decreases |segs|
  {
    if segs == [] {
      NothingAfter(done);
      AllRead(done, parts);
    } else if |parts| >= 3 || !IsSegment(segs[0]) {
      NotParsed(done, segs);
    } else {
      GoodNext(done, parts, segs[0]);
      ContinuedParses(done + [segs[0]], parts + [Number(segs[0])], segs[1..]);
      Regroup(done, [segs[0]], segs[1..]);
      HeadAndTail(segs);
    }
  }

  lemma NothingRead(s: string, start: nat, parts: seq<nat>)
    requires start == 0 && parts == []
    ensures Continued(parts, Unread(s, start)) == Parsed(s)
  {
    ContinuedParses([], parts, Unread(s, start));
    NothingBefore(Unread(s, start));
  }

  /** i stands in the segment from start, or both stand past the end. */
  ghost predicate Within(s: string, start: nat, i: nat) {
    NoDot(s, start, i) || start == i == |s| + 1
  }

  lemma WithinNext(s: string, start: nat, i: nat)
    requires Within(s, start, i) && i < |s| && s[i] != '.'
    ensures Within(s, start, i + 1)
  {
  }

  /** The segment that ends at i, put with those before it; None when it spoils the version. */
  method TakeSegment(s: string, start: nat, i: nat, parts: seq<nat>) returns (more: Option<seq<nat>>)
    requires EndsAt(s, start, i)
    ensures more.None? ==> Continued(parts, Unread(s, start)) == None
    ensures more.Some? ==> Continued(more.value, Unread(s, i + 1)) == Continued(parts, Unread(s, start))
  {
    var seg := s[start..i];
    UnreadNext(s, start, i);
    TailOf(seg, Unread(s, i + 1));
    if |parts| >= 3 { return None; }
    var n := ParseSegment(seg);
    if n == None { return None; }
    more := Some(parts + [n.value]);
  }

  method ParseVersion(s: string) returns (r: Option<Version>)
    ensures r == Parsed(s)
  {
    var parts: seq<nat> := [];
    var start, i := 0, 0;
    NothingRead(s, start, parts);
    while i <= |s|
      invariant Within(s, start, i) && Continued(parts, Unread(s, start)) == Parsed(s)
    {
      if i < |s| && s[i] != '.' {
        WithinNext(s, start, i);
        i := i + 1;
      } else {
        var more := TakeSegment(s, start, i, parts);
        if more == None { return None; }
        parts, start, i := more.value, i + 1, i + 1;
      }
    }
    if |parts| != 3 { return None; }
    r := Some(Version(parts[0], parts[1], parts[2]));
  }

  // ---- Deprecation windows ----------------------------------------------------------------

  const MIN_MINORS := 2

  datatype Deprecated = Deprecated(since: string, removedIn: string)

  datatype Bound = Since | RemovedIn

  datatype Issue = BoundMissing(bound: Bound) | VersionInvalid(bound: Bound) | WindowTooShort

  /** (0|[1-9][0-9]*)\.(0|[1-9][0-9]*)\.(0|[1-9][0-9]*), whole */
  predicate MatchesGrammar(s: string) {
    var segs := Segments(s, 0);
    |segs| == 3 && IsNumeral(segs[0]) && IsNumeral(segs[1]) && IsNumeral(segs[2])
  }

  /** Addition of two ints, which wraps. */
  function Wrapped(n: int): int {
    if n > MAX_INT then n - 0x1_0000_0000_0000_0000 else n
  }

  predicate MeetsWindow(since: Version, removed: Version) {
    if removed.major > since.major then true
    else if removed.major < since.major then false
    else removed.minor >= Wrapped(since.minor + MIN_MINORS)
  }

  method ValidateDeprecated(d: Option<Deprecated>) returns (issues: seq<Issue>)
    ensures issues == Issues(d)
  {
    issues := [];
    if d == None { return; }
    var bounds := [(Since, d.value.since), (RemovedIn, d.value.removedIn)];
    for i := 0 to |bounds|
      invariant issues == (if i > 0 then BoundIssues(Since, d.value.since) else [])
                        + (if i > 1 then BoundIssues(RemovedIn, d.value.removedIn) else [])
    {
      var b := bounds[i];
      if b.1 == "" {
        issues := issues + [BoundMissing(b.0)];
      } else if !MatchesGrammar(b.1) {
        issues := issues + [VersionInvalid(b.0)];
      }
    }
    if issues != [] { return; }
    var since := ParseVersion(d.value.since);
    var removed := ParseVersion(d.value.removedIn);
    if since == None || removed == None { return; }
    if !MeetsWindow(since.value, removed.value) { issues := [WindowTooShort]; }
  }

  function BoundIssues(b: Bound, s: string): seq<Issue> {
    if s == "" then [BoundMissing(b)] else if !MatchesGrammar(s) then [VersionInvalid(b)] else []
  }

  function Issues(d: Option<Deprecated>): seq<Issue> {
    if d == None then []
    else
      var bounds := BoundIssues(Since, d.value.since) + BoundIssues(RemovedIn, d.value.removedIn);
      if bounds != [] then bounds
      else
        var since, removed := Parsed(d.value.since), Parsed(d.value.removedIn);
        if since.Some? && removed.Some? && !MeetsWindow(since.value, removed.value) then [WindowTooShort] else []
  }

  /** The issues, exactly: each bound that is missing or not of the grammar, the lower one first, and only where
      both are of the grammar a window that is too short, between bounds that fit an int. */
  lemma IssuesExactly(d: Deprecated)
    ensures var issues := Issues(Some(d));
      && (BoundMissing(Since) in issues <==> d.since == "")
      && (BoundMissing(RemovedIn) in issues <==> d.removedIn == "")
      && (VersionInvalid(Since) in issues <==> d.since != "" && !MatchesGrammar(d.since))
      && (VersionInvalid(RemovedIn) in issues <==> d.removedIn != "" && !MatchesGrammar(d.removedIn))
      && (WindowTooShort in issues <==>
            && MatchesGrammar(d.since) && MatchesGrammar(d.removedIn)
            && Parsed(d.since).Some? && Parsed(d.removedIn).Some?
            && !MeetsWindow(Parsed(d.since).value, Parsed(d.removedIn).value))
      && |issues| <= 2 && (|issues| == 2 ==> issues[0].bound == Since && issues[1].bound == RemovedIn)
    ensures Issues(None) == []
  {
    EmptyIsNoVersion();
    var a, b := BoundIssues(Since, d.since), BoundIssues(RemovedIn, d.removedIn);
    assert Issues(Some(d)) == if a + b != [] then a + b else Issues(Some(d));
  }

  /** The policy: a new major, or at least two more minors. */
  predicate LeavesWindow(since: Version, removed: Version) {
    removed.major > since.major || (removed.major == since.major && removed.minor >= since.minor + MIN_MINORS)
  }

  /** The version a string of the grammar stands for, of whatever size. */
  function Denoted(s: string): Version
    requires MatchesGrammar(s)
  {
    var segs := Segments(s, 0);
    Version(Number(segs[0]), Number(segs[1]), Number(segs[2]))
  }

  /** The grammar is the printed form of the versions, and only those that fit an int are parsed. */
  lemma GrammarIsPrinted(s: string, v: Version)
    ensures MatchesGrammar(s) && Denoted(s) == v <==> Print(v) == s
    ensures MatchesGrammar(s) ==> Parsed(s) == if Fits(Denoted(s)) then Some(Denoted(s)) else None
  {
    if MatchesGrammar(s) { DenotedPrints(s); }
    PrintedSegments(v);
    DecimalIsNumeral(v.major);
    DecimalIsNumeral(v.minor);
    DecimalIsNumeral(v.patch);
  }

  lemma DenotedPrints(s: string)
    requires MatchesGrammar(s)
    ensures Print(Denoted(s)) == s
  {
    var segs := Segments(s, 0);
    NumeralPrintsBack(segs[0]);
    NumeralPrintsBack(segs[1]);
    NumeralPrintsBack(segs[2]);
    ThreeSegments(s, segs);
  }

  /** Of any deprecation: no issue is raised exactly when both bounds are of the grammar and either one
      of them is too great for an int, or the policy is met, or the lower minor is one of the two
      greatest ints, where the sum wraps. */
  lemma NoIssueExactly(d: Deprecated)
    ensures Issues(Some(d)) == [] <==>
      && MatchesGrammar(d.since) && MatchesGrammar(d.removedIn)
      && (var since, removed := Denoted(d.since), Denoted(d.removedIn);
          || !Fits(since) || !Fits(removed) || LeavesWindow(since, removed)
          || (removed.major == since.major && since.minor > MAX_INT - MIN_MINORS))
  {
    EmptyIsNoVersion();
    if MatchesGrammar(d.since) { GrammarIsPrinted(d.since, Denoted(d.since)); }
    if MatchesGrammar(d.removedIn) { GrammarIsPrinted(d.removedIn, Denoted(d.removedIn)); }
  }

  lemma EmptyIsNoVersion()
    ensures !MatchesGrammar("")
  {
    LastSegment("", 0);
  }

  /** So a deprecation that raises no issue keeps the policy, unless its minor is that great. */
  lemma NoIssueKeepsPolicy(d: Deprecated, since: Version, removed: Version)
    requires Parsed(d.since) == Some(since) && Parsed(d.removedIn) == Some(removed) && Issues(Some(d)) == []
    ensures LeavesWindow(since, removed) <==> removed.major > since.major || since.minor <= MAX_INT - MIN_MINORS
  {
    NoIssueExactly(d);
    GrammarIsPrinted(d.since, since);
    GrammarIsPrinted(d.removedIn, removed);
  }

  /** There the window passes although it runs backwards. */
  lemma WrappedWindowPasses(d: Deprecated, since: Version, removed: Version)
    requires since == Version(0, MAX_INT, 0) && removed == Version(0, 0, 0)
    requires d == Deprecated(Print(since), Print(removed))
    ensures Issues(Some(d)) == [] && !LeavesWindow(since, removed)
  {
    GrammarIsPrinted(d.since, since);
    GrammarIsPrinted(d.removedIn, removed);
    NoIssueExactly(d);
  }

  /** A numeral too great for an int matches the grammar and is not parsed: whichever bound it is, the
      window is never compared. */
  lemma UnparsedBoundPasses(v: Version, other: string)
    requires !Fits(v) && MatchesGrammar(other)
    ensures Issues(Some(Deprecated(Print(v), other))) == [] && Issues(Some(Deprecated(other, Print(v)))) == []
  {
    GrammarIsPrinted(Print(v), v);
    NoIssueExactly(Deprecated(Print(v), other));
    NoIssueExactly(Deprecated(other, Print(v)));
  }
}
