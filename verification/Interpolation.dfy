/** What a where-predicate reads, and what a string with several `${...}` blocks reads.

    The blocks are taken as scanned. Reads are collected on what is compiled from each block, so that the
    predicate inside a where-call counts; a block that does not compile is scanned as it stands.
 */
module Interpolation {
  import opened Cel
  import opened Wrappers
  import opened Reads
  import opened HostsWhere
  import opened Printing
  import opened WhereText
  import opened Seal
  import opened SealDeep
  import opened SealWhere
  import opened Seqs

  // ---- Reads through a where-call -------------------------------------------------------------

  /** The text as it is compiled: where-calls inlined, and the author's own text where they cannot be. */
  function Inlined(text: Source, parse: Parser): Source {
    if !text.Tree? then text
    else
      match RewriteHostsWhere(text.tree, true, parse)
      case Rewritten(t) =>
        var read := CompiledText(text.tree, t);
        if read.Got? && read.rest == [] then Tree(read.value) else Unparsable
      case _ => text
  }

  /** The reads of one text, per root. */
  function SourceReads(root: string, text: Source): RootReads {
    match text
    case NoText => RootReads({}, false)
    case Unparsable => RootReads({}, true)
    case Tree(e) => ReadsOf(root, e)
  }

  method HostPredicateReads(text: Source, roots: set<string>, parse: Parser) returns (out: map<string, RootReads>)
    ensures out.Keys == roots && forall r :: r in roots ==> out[r] == SourceReads(r, Inlined(text, parse))
  {
    out := PredicateReads(Inlined(text, parse), roots);
  }

  /** The text is compiled to this tree, without a sign that would make it another. */
  ghost predicate CompilesTo(e: Expr, t: Expr, parse: Parser) {
    && RewriteHostsWhere(e, true, parse).Rewritten? && Inlined(Tree(e), parse) == Tree(t)
    && (ContainsWhere(e) ==> Readable(e) && Inlines(e, parse, Readable))
  }

  lemma CompiledMeans(e: Expr, t: Expr, parse: Parser, act: Activation, ops: Ops)
    requires CompilesTo(e, t, parse) && InFragment(e, parse) && NumbersAreNumbers(ops)
    ensures Eval(t, act, map[], ops) == Meaning(e, None, {}, act, map[], ops, parse)
  {
    CompiledTextIsCorrect(e, true, parse, act, ops);
  }

  /** Text without a where-call, or with one that cannot be rewritten, is scanned as it stands. */
  lemma PlainTextScanned(e: Expr, parse: Parser)
    requires !ContainsWhere(e) || !RewriteHostsWhere(e, true, parse).Rewritten?
    ensures Inlined(Tree(e), parse) == Tree(e)
    ensures Inlined(NoText, parse) == NoText && Inlined(Unparsable, parse) == Unparsable
  {
  }

  /** Any other is scanned as its rewritten text reads: the rewritten tree where that text survives. */
  lemma RewrittenTextScanned(e: Expr, t: Expr, parse: Parser)
    requires ContainsWhere(e) && RewriteHostsWhere(e, true, parse) == Rewritten(t)
    ensures ParseExpr(Print(t)) == Got(t, []) ==> Inlined(Tree(e), parse) == Tree(t)
  {
  }

  /** And where no sign stands as an operand there is a tree to scan. */
  lemma SignlessTextScanned(e: Expr, out: Expr, parse: Parser) returns (t: Expr)
    requires RewriteHostsWhere(e, true, parse) == Rewritten(out)
    requires ContainsWhere(e) ==> Readable(e) && Inlines(e, parse, Readable)
    ensures CompilesTo(e, t, parse)
  {
    if ContainsWhere(e) {
      RewriteKeepsText(e, FreeIterVar(e, parse), parse);
      t := ReadBack(out);
    } else {
      t := e;
    }
  }

  lemma ReadBack(out: Expr) returns (t: Expr)
    requires Readable(out)
    ensures ParseExpr(Print(out)) == Got(t, [])
  {
    ExprReads(out, []);
    NothingAfter(Print(out));
    t := Reread(out, false);
  }

  /** Cutting each root down to what was collected, or to more, does not change what the text means, where-
      calls and the predicates inside them included. */
  lemma InlinedNarrowingIsSound(e: Expr, t: Expr, parse: Parser, act: Activation, cut: map<string, set<string>>,
                                ops: Ops)
    requires CompilesTo(e, t, parse) && InFragment(e, parse) && NumbersAreNumbers(ops)
    requires forall n :: n in cut ==> MayNarrow(n, t) && SourceReads(n, Inlined(Tree(e), parse)).fields <= cut[n]
    ensures Meaning(e, None, {}, Narrow(act, cut), map[], ops, parse) == Meaning(e, None, {}, act, map[], ops, parse)
  {
    CompiledMeans(e, t, parse, act, ops);
    CompiledMeans(e, t, parse, Narrow(act, cut), ops);
    NarrowingIsSound(t, act, cut, map[], ops);
  }

  // ---- Several blocks ---------------------------------------------------------------------------

  datatype Segment = Text(text: string) | Block(source: Source)

  /** What stands in the blocks, in order. */
  function Blocks(segs: seq<Segment>): seq<Source> {
    if segs == [] then []
    else (if segs[0].Block? then [segs[0].source] else []) + Blocks(segs[1..])
  }

  function Joined(a: RootReads, b: RootReads): RootReads {
    RootReads(a.fields + b.fields, a.whole || b.whole)
  }

  /** The union over the segments. */
  function SegmentReads(root: string, segs: seq<Segment>, parse: Parser): RootReads {
    if segs == [] then RootReads({}, false)
    else
      var last := |segs| - 1;
      var before := SegmentReads(root, segs[..last], parse);
      if segs[last].Block? then Joined(before, SourceReads(root, Inlined(segs[last].source, parse))) else before
  }

  /** A string that cannot be scanned is reported as reading all of it. */
  method InterpolationReads(scanned: Option<seq<Segment>>, roots: set<string>, parse: Parser)
    returns (out: map<string, RootReads>)
    ensures out.Keys == roots
    ensures scanned.None? ==> forall r :: r in roots ==> out[r] == RootReads({}, true)
    ensures scanned.Some? ==> forall r :: r in roots ==> out[r] == SegmentReads(r, scanned.value, parse)
  {
    if scanned.None? { return map r | r in roots :: RootReads({}, true); }
    var segs := scanned.value;
    out := map r | r in roots :: RootReads({}, false);
    for i := 0 to |segs|
      invariant out.Keys == roots && forall r :: r in roots ==> out[r] == SegmentReads(r, segs[..i], parse)
    {
      assert segs[..i + 1][..i] == segs[..i];
      if segs[i].Block? {
        var found := HostPredicateReads(segs[i].source, roots, parse);
        out := map r | r in roots :: Joined(out[r], found[r]);
      }
    }
    assert segs[..|segs|] == segs;
  }

  /** A block that names the field f of the root. */
  predicate ReadsField(root: string, seg: Segment, parse: Parser, f: string) {
    seg.Block? && f in SourceReads(root, Inlined(seg.source, parse)).fields
  }

  predicate ReadsWhole(root: string, seg: Segment, parse: Parser) {
    seg.Block? && SourceReads(root, Inlined(seg.source, parse)).whole
  }

  /** The union is what some block reads, and no more. */
  lemma {:induction false} SegmentReadsExactly(root: string, segs: seq<Segment>, parse: Parser)
    ensures var r := SegmentReads(root, segs, parse);
      && (r.whole <==> exists i :: 0 <= i < |segs| && ReadsWhole(root, segs[i], parse))
      && forall f :: f in r.fields <==> exists i :: 0 <= i < |segs| && ReadsField(root, segs[i], parse, f)
    decreases |segs|
  {
    if segs != [] {
      var last := |segs| - 1;
      SegmentReadsExactly(root, segs[..last], parse);
      assert forall i :: 0 <= i < last ==> segs[..last][i] == segs[i];
    }
  }

  /** What a block means; text that does not parse is an error. */
  function BlockMeaning(source: Source, act: Activation, ops: Ops, parse: Parser): Outcome {
    if source.Tree? then Meaning(source.tree, None, {}, act, map[], ops, parse) else Err
  }

  /** What each block of a string means. */
  function Meanings(segs: seq<Segment>, act: Activation, ops: Ops, parse: Parser): seq<Outcome> {
    seq(|Blocks(segs)|, i requires 0 <= i < |Blocks(segs)| => BlockMeaning(Blocks(segs)[i], act, ops, parse))
  }

  lemma {:induction false} BlockIsSegment(segs: seq<Segment>, k: nat) returns (i: nat)
    requires k < |Blocks(segs)|
    ensures i < |segs| && segs[i] == Block(Blocks(segs)[k])
    decreases |segs|
  {
    if segs[0].Block? && k == 0 {
      i := 0;
    } else {
      i := BlockIsSegment(segs[1..], if segs[0].Block? then k - 1 else k);
      i := i + 1;
    }
  }

  /** Each block compiles, and to a tree in which this root may be narrowed. */
  ghost predicate BlockNarrows(source: Source, roots: set<string>, parse: Parser) {
    source.Tree? ==> InFragment(source.tree, parse) && exists t ::
      CompilesTo(source.tree, t, parse) && forall n :: n in roots ==> MayNarrow(n, t)
  }

  /** Cutting the roots down to the reads collected over all blocks keeps what each of them means. */
  lemma SharedNarrowingIsSound(segs: seq<Segment>, parse: Parser, act: Activation, cut: map<string, set<string>>,
                               ops: Ops)
    requires NumbersAreNumbers(ops)
    requires forall i :: 0 <= i < |segs| && segs[i].Block? ==> BlockNarrows(segs[i].source, cut.Keys, parse)
    requires forall n :: n in cut ==> SegmentReads(n, segs, parse).fields <= cut[n]
    ensures Meanings(segs, Narrow(act, cut), ops, parse) == Meanings(segs, act, ops, parse)
  {
    var narrow := Narrow(act, cut);
    forall k | 0 <= k < |Blocks(segs)|
      ensures BlockMeaning(Blocks(segs)[k], narrow, ops, parse) == BlockMeaning(Blocks(segs)[k], act, ops, parse)
    {
      var i := BlockIsSegment(segs, k);
      forall n | n in cut ensures SourceReads(n, Inlined(segs[i].source, parse)).fields <= cut[n] {
        SegmentReadsExactly(n, segs, parse);
        var found := SourceReads(n, Inlined(segs[i].source, parse)).fields;
        assert forall f :: f in found ==> ReadsField(n, segs[i], parse, f);
      }
      BlockNarrowingIsSound(segs[i].source, parse, act, cut, ops);
    }
  }

  lemma BlockNarrowingIsSound(source: Source, parse: Parser, act: Activation, cut: map<string, set<string>>, ops: Ops)
    requires NumbersAreNumbers(ops) && BlockNarrows(source, cut.Keys, parse)
    requires forall n :: n in cut ==> SourceReads(n, Inlined(source, parse)).fields <= cut[n]
    ensures BlockMeaning(source, Narrow(act, cut), ops, parse) == BlockMeaning(source, act, ops, parse)
  {
    if source.Tree? {
      var t :| CompilesTo(source.tree, t, parse) && forall n :: n in cut.Keys ==> MayNarrow(n, t);
      InlinedNarrowingIsSound(source.tree, t, parse, act, cut, ops);
    }
  }

  // ---- The seal of several blocks -----------------------------------------------------------------

  const NO_READS := SealReads({}, {}, 0, false)

  function SourceSealReads(text: Source): SealReads {
    if text.Tree? then ExprSealReads(text.tree) else NO_READS
  }

  function JoinedSeal(a: SealReads, b: SealReads): SealReads {
    SealReads(a.addrs + b.addrs, a.idents + b.idents, a.vaultCalls + b.vaultCalls, a.varsWhole || b.varsWhole)
  }

  function SegmentSealReads(segs: seq<Segment>): SealReads {
    if segs == [] then NO_READS
    else
      var last := |segs| - 1;
      var before := SegmentSealReads(segs[..last]);
      if segs[last].Block? then JoinedSeal(before, SourceSealReads(segs[last].source)) else before
  }

  /** What the blocks of a string read, taken once; a string that cannot be scanned reads nothing. */
  method SealReadsOf(scanned: Option<seq<Segment>>) returns (out: SealReads)
    ensures out == if scanned.Some? then SegmentSealReads(scanned.value) else NO_READS
  {
    out := NO_READS;
    if scanned.None? { return; }
    var segs := scanned.value;
    for i := 0 to |segs|
      invariant out == SegmentSealReads(segs[..i])
    {
      assert segs[..i + 1][..i] == segs[..i];
      if segs[i].Block? {
        var r := CollectSealReads(segs[i].source);
        out := JoinedSeal(out, r);
      }
    }
    assert segs[..|segs|] == segs;
  }

  predicate SealedText(segs: seq<Segment>, s: Sources) {
    ReadsSecret(SegmentSealReads(segs), s, true)
  }

  predicate SealedBlock(seg: Segment, s: Sources) {
    seg.Block? && seg.source.Tree? && Sealed(seg.source.tree, s)
  }

  lemma JoinedSecret(a: SealReads, b: SealReads, s: Sources)
    ensures ReadsSecret(JoinedSeal(a, b), s, true) <==> ReadsSecret(a, s, true) || ReadsSecret(b, s, true)
  {
  }

  /** A string is sealed if and only if one of its blocks is. */
  lemma {:induction false} SealedExactly(segs: seq<Segment>, s: Sources)
    ensures SealedText(segs, s) <==> exists i :: 0 <= i < |segs| && SealedBlock(segs[i], s)
    decreases |segs|
  {
    if segs != [] {
      var last := |segs| - 1;
      SealedExactly(segs[..last], s);
      assert forall i :: 0 <= i < last ==> segs[..last][i] == segs[i];
      if segs[last].Block? { JoinedSecret(SegmentSealReads(segs[..last]), SourceSealReads(segs[last].source), s); }
    }
  }

  /** A block that compiles, with no filter in it sealed, read by name on these roots. */
  ghost predicate BlockByName(source: Source, s: Sources, roots: set<string>, allowHosts: bool, parse: Parser) {
    source.Tree? ==>
      var out := RewriteHostsWhere(source.tree, allowHosts, parse);
      && out.Rewritten? && InFragment(source.tree, parse)
      && Inlines(source.tree, parse, FilterUnsealed(FreeIterVar(source.tree, parse), s))
      && forall n :: n in roots ==> ReadByName(n, out.tree)
  }

  lemma BlockIsSecretFree(source: Source, allowHosts: bool, parse: Parser, s: Sources, roots: set<string>,
                          a: Activation, b: Activation, p: Ops, q: Ops)
    requires !SealedBlock(Block(source), s) && BlockByName(source, s, roots, allowHosts, parse)
    requires SameOps(VAULT, p, q) && DifferInDeepSecrets(roots, s, a, b)
    ensures BlockMeaning(source, a, p, parse) == BlockMeaning(source, b, q, parse)
  {
    if source.Tree? { CompiledIsSecretFree(source.tree, allowHosts, parse, s, roots, a, b, p, q); }
  }

  /** A string judged not sealed means the same, block by block, under any two activations that differ only
      in secrets, whatever Vault answers. */
  lemma UnsealedTextIsSecretFree(segs: seq<Segment>, allowHosts: bool, parse: Parser, s: Sources, roots: set<string>,
                                 a: Activation, b: Activation, p: Ops, q: Ops)
    requires !SealedText(segs, s) && SameOps(VAULT, p, q) && DifferInDeepSecrets(roots, s, a, b)
    requires forall i :: 0 <= i < |segs| && segs[i].Block? ==> BlockByName(segs[i].source, s, roots, allowHosts, parse)
    ensures Meanings(segs, a, p, parse) == Meanings(segs, b, q, parse)
  {
    SealedExactly(segs, s);
    forall k | 0 <= k < |Blocks(segs)|
      ensures BlockMeaning(Blocks(segs)[k], a, p, parse) == BlockMeaning(Blocks(segs)[k], b, q, parse)
    {
      var i := BlockIsSegment(segs, k);
      assert !SealedBlock(segs[i], s);
      BlockIsSecretFree(segs[i].source, allowHosts, parse, s, roots, a, b, p, q);
    }
  }
}
