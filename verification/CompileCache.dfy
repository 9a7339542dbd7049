/** The compile cache: one map from text keys to programs, shared by every run.

    The key collapses some arguments on purpose: all contexts without the `compute` namespace share a
    tag, and so do all host-free stances that list the same names. The cache is consulted before any
    guard runs, so a hit is right only if the guards would have let the request through.
 */
module CompileCache {
  import opened Cel
  import opened Wrappers
  import opened HostScope
  import opened Seqs
  import Reads
  import Seal

  const COMPUTE := "compute"

  datatype ComputeScope =
    | Available
    | NoComputeLoopAxis | NoComputeCovenList | NoComputeDestiny | NoComputeStateMatch | NoComputeFlowControl

  datatype Request = Request(
    loopNames: seq<string>,
    expr: string,
    allowHosts: bool,
    allowRegisterHosts: bool,
    compute: ComputeScope,
    stance: Stance)

  datatype Result<+P> = Ok(program: P) | Rejected

  /** What compiling rests on, as functions of exactly what each part is given. */
  datatype Compiler<!P, !Env> = Compiler(
    parse: string -> Option<Expr>,
    unsupported: string -> bool,
    internalIdents: string -> bool,
    rewrite: (string, bool) -> Option<string>,
    registerHosts: (string, string, bool) -> bool,
    registerByIndex: (string, string) -> bool,
    extend: seq<string> -> Option<Env>,
    program: (Env, string) -> Option<P>)

  // ---- Compiling without the cache --------------------------------------------------------

  function Loops(names: seq<string>): set<string> { set n | n in names }

  /** A reference to `compute` where that namespace does not exist. */
  predicate ComputeRejects<P, Env>(c: Compiler<P, Env>, expr: string, scope: ComputeScope, loopNames: seq<string>) {
    && scope != Available && COMPUTE !in loopNames
    && c.parse(expr).Some? && COMPUTE in Seal.Idents(c.parse(expr).value)
  }

  ghost predicate HostRejects<P, Env>(c: Compiler<P, Env>, compiled: string, stance: Stance, loopNames: seq<string>) {
    c.parse(compiled).Some? && GuardVerdict(c.parse(compiled).value, stance, Loops(loopNames)) != Accepted
  }

  /** The guards and the compiler, in an environment already found. */
  ghost function CompileWith<P, Env>(c: Compiler<P, Env>, env: Option<Env>, r: Request): Result<P> {
    if c.unsupported(r.expr) || c.internalIdents(r.expr) || ComputeRejects(c, r.expr, r.compute, r.loopNames)
    then Rejected
    else
      var compiled := c.rewrite(r.expr, r.allowHosts);
      if compiled.None? || c.registerHosts(r.expr, compiled.value, r.allowRegisterHosts) then Rejected
      else
        var prg := ProgramIn(c, env, compiled.value);
        if || prg.None? || c.registerByIndex(r.expr, compiled.value)
           || HostRejects(c, compiled.value, r.stance, r.loopNames)
        then Rejected
        else Ok(prg.value)
  }

  /** The program in an environment, which may have refused a loop name. */
  function ProgramIn<P, Env>(c: Compiler<P, Env>, env: Option<Env>, compiled: string): Option<P> {
    if env.None? then None else c.program(env.value, compiled)
  }

  /** The request's own environment, and its program there. */
  ghost function CompileUncached<P, Env>(c: Compiler<P, Env>, r: Request): Result<P> {
    CompileWith(c, c.extend(r.loopNames), r)
  }

  // ---- The key ----------------------------------------------------------------------------

  function Tag(n: nat): char
    requires n < 8
  {
    n as char
  }

  function Join(names: seq<string>): string {
    if names == [] then [] else if |names| == 1 then names[0] else names[0] + [Tag(0)] + Join(names[1..])
  }

  function StanceBody(stance: Stance): string {
    if stance.variantInputs == [] && stance.variantVars == [] then []
    else Join(stance.variantInputs) + [Tag(7)] + Join(stance.variantVars)
  }

  function StanceTag(stance: Stance): string {
    if stance.scope == HostBound then [] else [Tag(5)] + StanceBody(stance) + [Tag(6)]
  }

  function TagIf(b: bool, n: nat): string
    requires n < 8
  {
    if b then [Tag(n)] else []
  }

  function LoopKey(r: Request): string {
    if r.loopNames == [] then r.expr else Join(r.loopNames) + [Tag(1)] + r.expr
  }

  function HostsKey(r: Request): string { TagIf(!r.allowHosts, 2) + LoopKey(r) }
  function RegisterKey(r: Request): string { TagIf(r.allowRegisterHosts, 4) + HostsKey(r) }
  function ComputeKey(r: Request): string { TagIf(r.compute != Available, 3) + RegisterKey(r) }
  function CacheKey(r: Request): string { StanceTag(r.stance) + ComputeKey(r) }

  // ---- What may stand in a key ------------------------------------------------------------

  predicate CleanText(s: string) {
    forall i :: 0 <= i < |s| ==> s[i] > Tag(7)
  }

  predicate CleanNames(names: seq<string>) {
    forall i :: 0 <= i < |names| ==> CleanText(names[i])
  }

  /** No tag byte in anything the key is made of. */
  predicate TagFree(r: Request) {
    && CleanText(r.expr) && CleanNames(r.loopNames)
    && CleanNames(r.stance.variantInputs) && CleanNames(r.stance.variantVars)
  }

  /** The one list of names the key cannot spell: a single empty name, which joins to nothing. */
  predicate Spelled(s: Stance) {
    s.scope == HostBound || (s.variantInputs != [""] && s.variantVars != [""])
  }

  predicate Clean(r: Request) {
    TagFree(r) && Spelled(r.stance)
  }

  /** Only these tag bytes, if any. */
  predicate OnlyTags(s: string, tags: set<char>) {
    forall i :: 0 <= i < |s| ==> s[i] > Tag(7) || s[i] in tags
  }

  // ---- The key can be taken apart ---------------------------------------------------------

  lemma FirstOf(x: string, d: char, y: string)
    requires d !in x
    ensures (x + [d] + y)[0] == d <==> x == []
    ensures x != [] ==> (x + [d] + y)[0] == x[0]
  {
  }

  /** A delimiter that occurs in neither left part splits both alike. */
  lemma {:induction false} Delimited(x: string, y: string, x': string, y': string, d: char)
    requires d !in x && d !in x' && x + [d] + y == x' + [d] + y'
    ensures x == x' && y == y'
    decreases |x|
  {
    var s, s' := x + [d] + y, x' + [d] + y';
    FirstOf(x, d, y);
    FirstOf(x', d, y');
    if x == [] && x' == [] {
      assert s[1..] == y && s'[1..] == y';
    } else {
      assert s[1..] == x[1..] + [d] + y && s'[1..] == x'[1..] + [d] + y';
      Delimited(x[1..], y, x'[1..], y', d);
      assert x == [x[0]] + x[1..] && x' == [x'[0]] + x'[1..];
    }
  }

  lemma {:induction false} JoinTags(names: seq<string>)
    requires CleanNames(names)
    ensures OnlyTags(Join(names), {Tag(0)})
    ensures Join(names) == [] <==> JoinsToNothing(names)
  {
    if |names| > 1 { JoinTags(names[1..]); }
  }

  predicate JoinsToNothing(names: seq<string>) {
    names == [] || (|names| == 1 && names[0] == "")
  }

  /** Lists the separator tells apart: all but no name and one empty name. */
  predicate JoinAlike(a: seq<string>, b: seq<string>) {
    a == b || (JoinsToNothing(a) && JoinsToNothing(b))
  }

  lemma {:induction false} JoinInjective(a: seq<string>, b: seq<string>)
    requires CleanNames(a) && CleanNames(b)
    ensures Join(a) == Join(b) <==> JoinAlike(a, b)
    decreases |a|
  {
    JoinTags(a);
    JoinTags(b);
    if Join(a) == Join(b) && a != [] && b != [] {
      OneOrMore(a, b);
      if |a| > 1 {
        assert Tag(0) !in a[0] && Tag(0) !in b[0];
        Delimited(a[0], Join(a[1..]), b[0], Join(b[1..]), Tag(0));
        JoinInjective(a[1..], b[1..]);
        assert a == [a[0]] + a[1..] && b == [b[0]] + b[1..];
      }
    }
  }

  /** One clean name is not several joined: it holds no separator. */
  lemma OneOrMore(a: seq<string>, b: seq<string>)
    requires CleanNames(a) && CleanNames(b) && a != [] && b != []
    requires Join(a) == Join(b)
    ensures |a| == 1 <==> |b| == 1
  {
    assert |a| > 1 ==> Join(a)[|a[0]|] == Tag(0);
    assert |b| > 1 ==> Join(b)[|b[0]|] == Tag(0);
    assert |a| == 1 ==> forall i :: 0 <= i < |Join(a)| ==> Join(a)[i] != Tag(0);
    assert |b| == 1 ==> forall i :: 0 <= i < |Join(b)| ==> Join(b)[i] != Tag(0);
  }

  /** An optional tag before texts that cannot start with it. */
  lemma TagPeels(b: bool, b': bool, n: nat, x: string, x': string)
    requires n < 8 && TagIf(b, n) + x == TagIf(b', n) + x'
    requires Tag(n) !in x && Tag(n) !in x'
    ensures b == b' && x == x'
  {
    var s, s' := TagIf(b, n) + x, TagIf(b', n) + x';
    assert b ==> s[0] == Tag(n) && s[1..] == x;
    assert b' ==> s'[0] == Tag(n) && s'[1..] == x';
    assert !b ==> s == x;
    assert !b' ==> s' == x';
  }

  lemma KeyTags(r: Request)
    requires TagFree(r)
    ensures OnlyTags(LoopKey(r), {Tag(0), Tag(1)})
    ensures OnlyTags(HostsKey(r), {Tag(0), Tag(1), Tag(2)})
    ensures OnlyTags(RegisterKey(r), {Tag(0), Tag(1), Tag(2), Tag(4)})
    ensures OnlyTags(ComputeKey(r), {Tag(0), Tag(1), Tag(2), Tag(3), Tag(4)})
  {
    JoinTags(r.loopNames);
  }

  lemma LoopKeyInjective(a: Request, b: Request)
    requires TagFree(a) && TagFree(b) && LoopKey(a) == LoopKey(b)
    ensures a.loopNames == b.loopNames && a.expr == b.expr
  {
    JoinTags(a.loopNames);
    JoinTags(b.loopNames);
    assert a.loopNames != [] ==> LoopKey(a)[|Join(a.loopNames)|] == Tag(1);
    assert b.loopNames != [] ==> LoopKey(b)[|Join(b.loopNames)|] == Tag(1);
    assert Tag(1) !in a.expr && Tag(1) !in b.expr;
    if a.loopNames != [] && b.loopNames != [] {
      Delimited(Join(a.loopNames), a.expr, Join(b.loopNames), b.expr, Tag(1));
      JoinInjective(a.loopNames, b.loopNames);
    }
  }

  /** Stances of one tag body: lists that join alike, and nothing listed at all only in both. */
  predicate TaggedAlike(a: Stance, b: Stance) {
    && JoinAlike(a.variantInputs, b.variantInputs) && JoinAlike(a.variantVars, b.variantVars)
    && (Lists(a) <==> Lists(b))
  }

  predicate Lists(a: Stance) {
    a.variantInputs != [] || a.variantVars != []
  }

  lemma StanceBodyInjective(a: Stance, b: Stance)
    requires CleanNames(a.variantInputs) && CleanNames(a.variantVars)
    requires CleanNames(b.variantInputs) && CleanNames(b.variantVars)
    ensures StanceBody(a) == StanceBody(b) <==> TaggedAlike(a, b)
  {
    JoinTags(a.variantInputs);
    JoinTags(b.variantInputs);
    JoinInjective(a.variantInputs, b.variantInputs);
    JoinInjective(a.variantVars, b.variantVars);
    assert Lists(a) ==> StanceBody(a)[|Join(a.variantInputs)|] == Tag(7);
    assert Lists(b) ==> StanceBody(b)[|Join(b.variantInputs)|] == Tag(7);
    if StanceBody(a) == StanceBody(b) && Lists(a) && Lists(b) {
      Delimited(Join(a.variantInputs), Join(a.variantVars), Join(b.variantInputs), Join(b.variantVars), Tag(7));
    }
  }

  lemma StanceBodyTags(a: Stance)
    requires CleanNames(a.variantInputs) && CleanNames(a.variantVars)
    ensures Tag(6) !in StanceBody(a) && Tag(5) !in StanceBody(a)
  {
    JoinTags(a.variantInputs);
    JoinTags(a.variantVars);
  }

  /** Two requests a key does not tell apart: equal but for which context without `compute`, and which
      host-free context, they come from. */
  predicate Merged(a: Request, b: Request) {
    && a.loopNames == b.loopNames && a.expr == b.expr
    && a.allowHosts == b.allowHosts && a.allowRegisterHosts == b.allowRegisterHosts
    && (a.compute == Available <==> b.compute == Available)
    && (a.stance.scope == HostBound <==> b.stance.scope == HostBound)
    && (a.stance.scope != HostBound ==>
        a.stance.variantInputs == b.stance.variantInputs && a.stance.variantVars == b.stance.variantVars)
  }

  lemma StanceKey(r: Request)
    requires TagFree(r)
    ensures r.stance.scope == HostBound <==> (CacheKey(r) == [] || CacheKey(r)[0] != Tag(5))
    ensures r.stance.scope == HostBound ==> CacheKey(r) == ComputeKey(r)
    ensures r.stance.scope != HostBound ==> CacheKey(r)[1..] == StanceBody(r.stance) + [Tag(6)] + ComputeKey(r)
  {
    if r.stance.scope == HostBound {
      KeyTags(r);
      assert [] + ComputeKey(r) == ComputeKey(r);
    } else {
      Opens(Tag(5), StanceBody(r.stance), [Tag(6)], ComputeKey(r));
    }
  }

  lemma Opens(d: char, x: string, y: string, z: string)
    ensures var s := [d] + x + y + z; s[0] == d && s[1..] == x + y + z
  {
    assert [d] + x + y + z == [d] + (x + y + z);
  }

  lemma StancePeels(a: Request, b: Request)
    requires TagFree(a) && TagFree(b) && CacheKey(a) == CacheKey(b)
    ensures ComputeKey(a) == ComputeKey(b)
    ensures a.stance.scope == HostBound <==> b.stance.scope == HostBound
    ensures a.stance.scope != HostBound ==> StanceBody(a.stance) == StanceBody(b.stance)
  {
    StanceKey(a);
    StanceKey(b);
    if a.stance.scope != HostBound {
      StanceBodyTags(a.stance);
      StanceBodyTags(b.stance);
      Delimited(StanceBody(a.stance), ComputeKey(a), StanceBody(b.stance), ComputeKey(b), Tag(6));
    }
  }

  /** Two requests differ in nothing the guards look at but the lists of per-host names. */
  predicate MergedButNames(a: Request, b: Request) {
    && a.loopNames == b.loopNames && a.expr == b.expr
    && a.allowHosts == b.allowHosts && a.allowRegisterHosts == b.allowRegisterHosts
    && (a.compute == Available <==> b.compute == Available)
    && (a.stance.scope == HostBound <==> b.stance.scope == HostBound)
  }

  /** The key, exactly: equal for requests that differ at most in which context without `compute` and
      which host-free context they come from, and in lists of names that are tagged alike. */
  lemma KeysAgreeExactly(a: Request, b: Request)
    requires TagFree(a) && TagFree(b)
    ensures CacheKey(a) == CacheKey(b)
      <==> MergedButNames(a, b) && (a.stance.scope != HostBound ==> TaggedAlike(a.stance, b.stance))
  {
    StanceBodyInjective(a.stance, b.stance);
    if CacheKey(a) == CacheKey(b) {
      StancePeels(a, b);
      FlagsPeel(a, b);
      LoopKeyInjective(a, b);
    }
  }

  /** Where every list can be spelled, equal keys merge nothing else: everything a guard may look at can
      be read back from the key. */
  lemma KeyMergesOnlyContexts(a: Request, b: Request)
    requires Clean(a) && Clean(b)
    ensures CacheKey(a) == CacheKey(b) <==> Merged(a, b)
  {
    KeysAgreeExactly(a, b);
    if a.stance.scope != HostBound && b.stance.scope != HostBound {
      SpelledLists(a.stance, b.stance);
    }
  }

  lemma SpelledLists(a: Stance, b: Stance)
    requires Spelled(a) && Spelled(b) && a.scope != HostBound && b.scope != HostBound
    ensures TaggedAlike(a, b) <==> a.variantInputs == b.variantInputs && a.variantVars == b.variantVars
  {
    forall names: seq<string> ensures JoinsToNothing(names) <==> names == [] || names == [""] {
      if JoinsToNothing(names) && names != [] { assert names == [names[0]]; }
    }
  }

  lemma FlagsPeel(a: Request, b: Request)
    requires TagFree(a) && TagFree(b) && ComputeKey(a) == ComputeKey(b)
    ensures a.compute == Available <==> b.compute == Available
    ensures a.allowHosts == b.allowHosts && a.allowRegisterHosts == b.allowRegisterHosts
    ensures LoopKey(a) == LoopKey(b)
  {
    NoSuchTag(a);
    NoSuchTag(b);
    TagPeels(a.compute != Available, b.compute != Available, 3, RegisterKey(a), RegisterKey(b));
    TagPeels(a.allowRegisterHosts, b.allowRegisterHosts, 4, HostsKey(a), HostsKey(b));
    TagPeels(!a.allowHosts, !b.allowHosts, 2, LoopKey(a), LoopKey(b));
  }

  /** Each flag's tag is absent from what it is put before. */
  lemma NoSuchTag(r: Request)
    requires TagFree(r)
    ensures Tag(3) !in RegisterKey(r) && Tag(4) !in HostsKey(r) && Tag(2) !in LoopKey(r)
  {
    KeyTags(r);
  }

  /** Merged requests compile alike, because the guards only ever reject and never rewrite. */
  lemma MergedCompileAlike<P, Env>(c: Compiler<P, Env>, a: Request, b: Request)
    requires Merged(a, b)
    ensures CompileUncached(c, a) == CompileUncached(c, b)
  {
    var compiled := c.rewrite(a.expr, a.allowHosts);
    if compiled.Some? && c.parse(compiled.value).Some? && a.stance.scope != HostBound {
      HostFreeStancesAgree(c.parse(compiled.value).value, a.stance, b.stance, Loops(a.loopNames));
    }
  }

  /** No per-host `vars` and one per-host `vars` with the empty name are tagged alike, where inputs are
      listed, and only the second refuses `vars['']`. */
  lemma EmptyNamesAlias(r: Request)
    requires r.stance.scope != HostBound && r.stance.variantInputs != [] && r.stance.variantVars == []
    ensures CacheKey(r) == CacheKey(r.(stance := r.stance.(variantVars := [""])))
  {
    assert Join([""]) == "";
  }

  lemma EmptyNameMatters(e: Expr, s: Stance, none: string)
    requires none == "" && e == Index(Ident(VARS), Lit(VStr(none)))
    requires s.scope != HostBound && s.variantVars == []
    ensures GuardVerdict(e, s, {}) == Accepted && GuardVerdict(e, s.(variantVars := [none]), {}) != Accepted
  {
    assert Seal.Idents(e) == {VARS} by { assert Seal.Idents(e.key) == {}; }
    UnnamedReads(SOULPRINT, e);
    UnnamedReads(INPUT, e);
    VarsIndexField(e);
    OnlyVarsJudged(e, s);
    OnlyVarsJudged(e, s.(variantVars := [none]));
    assert none in Hits([none], Reads.ReadsOf(VARS, e).fields);
  }

  lemma OnlyVarsJudged(e: Expr, s: Stance)
    requires s.scope != HostBound
    requires Reads.ReadsOf(SOULPRINT, e) == Reads.RootReads({}, false)
    requires Reads.ReadsOf(INPUT, e) == Reads.RootReads({}, false)
    ensures GuardVerdict(e, s, {}) == RootVerdict(VARS, s.variantVars, Reads.ReadsOf(VARS, e), {})
  {
    assert Hits(s.variantInputs, {}) == {};
  }

  lemma UnnamedReads(root: string, e: Expr)
    requires root !in Seal.Idents(e) && root != REGISTER && root != Reads.STATE_ROOT
    ensures Reads.ReadsOf(root, e) == Reads.RootReads({}, false)
  {
    Seal.UnnamedUnread(root, e);
    Reads.WholeIsExact(root, e);
  }

  lemma VarsIndexField(e: Expr)
    requires Reads.IsVarsLiteralIndex(e)
    ensures e.key.v.s in Reads.FieldsRead(VARS, e)
  {
  }

  lemma GuardRefuses<P, Env>(c: Compiler<P, Env>, r: Request, r': Request, e: Expr, none: string)
    requires none == "" && e == Index(Ident(VARS), Lit(VStr(none))) && r.loopNames == []
    requires c.rewrite(r.expr, r.allowHosts).Some? && c.parse(c.rewrite(r.expr, r.allowHosts).value) == Some(e)
    requires r.stance.scope != HostBound && r.stance.variantVars == []
    requires r' == r.(stance := r.stance.(variantVars := [none]))
    ensures CompileUncached(c, r') == Rejected
  {
    EmptyNameMatters(e, r.stance, none);
    assert Loops(r.loopNames) == {};
  }

  // ---- The engine -------------------------------------------------------------------------

  type Requests = Request -> bool

  /** Among these requests, one key means one answer wherever it is a program. */
  ghost predicate OneKeyOneAnswer<P, Env>(c: Compiler<P, Env>, among: Requests) {
    forall a, b :: among(a) && among(b) && CacheKey(a) == CacheKey(b) && CompileUncached(c, a).Ok? ==>
      CompileUncached(c, b) == CompileUncached(c, a)
  }

  lemma CleanAgree<P, Env>(c: Compiler<P, Env>)
    ensures OneKeyOneAnswer(c, Clean)
  {
    forall a, b | Clean(a) && Clean(b) && CacheKey(a) == CacheKey(b)
      ensures CompileUncached(c, b) == CompileUncached(c, a)
    {
      KeyMergesOnlyContexts(a, b);
      MergedCompileAlike(c, a, b);
    }
  }

  /** Every entry is what compiling any of these requests of that key gives. */
  ghost predicate CacheSound<P, Env>(c: Compiler<P, Env>, cache: map<string, P>, among: Requests) {
    forall r :: among(r) && CacheKey(r) in cache ==> CompileUncached(c, r) == Ok(cache[CacheKey(r)])
  }

  lemma InsertKeepsSound<P, Env>(c: Compiler<P, Env>, cache: map<string, P>, among: Requests, r: Request, p: P)
    requires CacheSound(c, cache, among) && OneKeyOneAnswer(c, among) && among(r) && CompileUncached(c, r) == Ok(p)
    ensures CacheSound(c, cache[CacheKey(r) := p], among)
  {
    forall q | among(q) && CacheKey(q) in cache[CacheKey(r) := p]
      ensures CompileUncached(c, q) == Ok(cache[CacheKey(r) := p][CacheKey(q)])
    {
      if CacheKey(q) == CacheKey(r) { assert CompileUncached(c, q) == CompileUncached(c, r); }
    }
  }

  ghost predicate EnvsSound<P, Env>(c: Compiler<P, Env>, envs: map<string, Env>) {
    forall names :: CleanNames(names) && names != [] && Join(names) in envs ==>
      c.extend(names) == Some(envs[Join(names)])
  }

  method BuildProgram<P, Env>(c: Compiler<P, Env>, env: Env, r: Request) returns (res: Result<P>)
    ensures res == CompileWith(c, Some(env), r)
  {
    if c.unsupported(r.expr) || c.internalIdents(r.expr) { return Rejected; }
    if ComputeRejects(c, r.expr, r.compute, r.loopNames) { return Rejected; }
    var compiled := c.rewrite(r.expr, r.allowHosts);
    if compiled.None? || c.registerHosts(r.expr, compiled.value, r.allowRegisterHosts) { return Rejected; }
    var prg := c.program(env, compiled.value);
    if prg.None? || c.registerByIndex(r.expr, compiled.value) { return Rejected; }
    if c.parse(compiled.value).Some? {
      var verdict := GuardHostScope(c.parse(compiled.value).value, r.stance, Loops(r.loopNames));
      if verdict != Accepted { return Rejected; }
    }
    return Ok(prg.value);
  }

  class Engine<P, Env> {
    const c: Compiler<P, Env>
    const noCache: bool
    const flowControl: bool
    var cache: map<string, P>
    var loopEnvs: map<string, Env>

    /** Sound for these requests: the ones the engine is asked for. */
    ghost predicate Valid(among: Requests)
      reads this
    {
      CacheSound(c, cache, among) && EnvsSound(c, loopEnvs)
    }

    constructor (c: Compiler<P, Env>, noCache: bool, flowControl: bool)
      ensures this.c == c && this.noCache == noCache && this.flowControl == flowControl
      ensures cache == map[] && loopEnvs == map[] && forall among :: Valid(among)
    {
      this.c, this.noCache, this.flowControl := c, noCache, flowControl;
      cache, loopEnvs := map[], map[];
    }

    /** A flow-control engine has no cross-host access, whatever the caller asked for. */
    function Effective(r: Request): (q: Request)
      ensures flowControl ==> !q.allowHosts && !q.allowRegisterHosts
      ensures !flowControl ==> q.allowHosts == r.allowHosts && q.allowRegisterHosts == r.allowRegisterHosts
      ensures (q.loopNames, q.expr, q.compute, q.stance) == (r.loopNames, r.expr, r.compute, r.stance)
    {
      if flowControl then r.(allowHosts := false, allowRegisterHosts := false) else r
    }

    /** The environment of exactly these loop names; a refused extension is not kept. */
    method LoopEnv(names: seq<string>, ghost among: Requests) returns (env: Option<Env>)
      requires Valid(among) && CleanNames(names)
      modifies this`loopEnvs
      ensures Valid(among) && env == c.extend(names)
      ensures env.None? ==> loopEnvs == old(loopEnvs)
    {
      if names == [] { return c.extend(names); }
      var key := Join(names);
      if key in loopEnvs { return Some(loopEnvs[key]); }
      env := c.extend(names);
      if env.None? { return; }
      forall other | CleanNames(other) && other != [] && Join(other) == key ensures other == names {
        JoinInjective(other, names);
      }
      loopEnvs := loopEnvs[key := env.value];
    }

    /** The program the uncached compiler gives for this very request, or its refusal, on an engine asked
        for requests among which one key means one answer. */
    method Compile(env: Env, r: Request, ghost among: Requests) returns (res: Result<P>)
      requires Valid(among) && OneKeyOneAnswer(c, among) && among(Effective(r)) && c.extend(r.loopNames) == Some(env)
      modifies this`cache
      ensures Valid(among) && res == CompileUncached(c, Effective(r))
      ensures cache == if noCache || res.Rejected? then old(cache)
                       else old(cache)[CacheKey(Effective(r)) := res.program]
    {
      var req := Effective(r);
      if noCache {
        res := BuildProgram(c, env, req);
        return;
      }
      var key := CacheKey(req);
      if key in cache {
        res := Ok(cache[key]);
        return;
      }
      res := BuildProgram(c, env, req);
      if res.Ok? {
        InsertKeepsSound(c, cache, among, req, res.program);
        cache := cache[key := res.program];
      }
    }

    /** The environment first, then the program in it. */
    method Program(r: Request, ghost among: Requests) returns (res: Result<P>)
      requires Valid(among) && OneKeyOneAnswer(c, among) && among(Effective(r)) && CleanNames(r.loopNames)
      modifies this
      ensures Valid(among) && res == CompileUncached(c, Effective(r))
    {
      var env := LoopEnv(r.loopNames, among);
      if env.None? { return Rejected; }
      res := Compile(env.value, r, among);
    }

    method Reset()
      modifies this
      ensures cache == map[] && loopEnvs == map[] && forall among :: Valid(among)
    {
      cache, loopEnvs := map[], map[];
    }
  }
}
