/** Any number of callers of one engine at a time.

    A call finds its environment, which several requests may share, and then its program. Each lookup,
    each compilation and each insert is a moment of its own, and anything may happen between them, a
    reset included.
 */
module CompileRuns {
  import opened Cel
  import opened Wrappers
  import opened HostScope
  import opened CompileCache
  import opened Seqs

  // ---- The machine ------------------------------------------------------------------------

  datatype Caller<+P, +Env> =
    | Idle
    | EnvMissed(req: Request)
    | EnvBuilt(req: Request, env: Env)
    | Ready(req: Request, env: Env)
    | Missed(req: Request, env: Env)
    | Built(req: Request, program: P)

  datatype State<+P, +Env> = State(cache: map<string, P>, envs: map<string, Env>, callers: map<nat, Caller<P, Env>>)

  datatype Action =
    | FindEnv(caller: nat, req: Request) | BuildEnv(caller: nat) | InsertEnv(caller: nat)
    | Lookup(caller: nat) | Build(caller: nat) | Insert(caller: nat)
    | ResetCaches

  datatype Event<+P> = Nothing | Returned(req: Request, result: Result<P>)

  function CallerOf<P, Env>(s: State<P, Env>, id: nat): Caller<P, Env> {
    if id in s.callers then s.callers[id] else Idle
  }

  function With<P, Env>(s: State<P, Env>, id: nat, caller: Caller<P, Env>): State<P, Env> {
    s.(callers := s.callers[id := caller])
  }

  /** No loop names, and the base environment serves; otherwise the one cached under them, if there is one. */
  function Found<P, Env>(c: Compiler<P, Env>, s: State<P, Env>, r: Request): Option<Env> {
    if r.loopNames == [] then c.extend(r.loopNames)
    else if Join(r.loopNames) in s.envs then Some(s.envs[Join(r.loopNames)]) else None
  }

  /** One action; one that is not enabled changes nothing. */
  ghost function Act<P, Env>(c: Compiler<P, Env>, s: State<P, Env>, a: Action): (State<P, Env>, Event<P>) {
    if a.ResetCaches? then (s.(cache := map[], envs := map[]), Nothing)
    else
      var id, caller := a.caller, CallerOf(s, a.caller);
      match a
      case FindEnv(_, r) =>
        if !caller.Idle? then (s, Nothing)
        else if Found(c, s, r).Some? then (With(s, id, Ready(r, Found(c, s, r).value)), Nothing)
        else (With(s, id, EnvMissed(r)), Nothing)
      case BuildEnv(_) =>
        if !caller.EnvMissed? then (s, Nothing)
        else if c.extend(caller.req.loopNames).Some?
        then (With(s, id, EnvBuilt(caller.req, c.extend(caller.req.loopNames).value)), Nothing)
        else (With(s, id, Idle), Returned(caller.req, Rejected))
      case InsertEnv(_) =>
        if !caller.EnvBuilt? then (s, Nothing)
        else
          (With(s.(envs := s.envs[Join(caller.req.loopNames) := caller.env]), id, Ready(caller.req, caller.env)),
           Nothing)
      case Lookup(_) =>
        if !caller.Ready? then (s, Nothing)
        else if CacheKey(caller.req) in s.cache
        then (With(s, id, Idle), Returned(caller.req, Ok(s.cache[CacheKey(caller.req)])))
        else (With(s, id, Missed(caller.req, caller.env)), Nothing)
      case Build(_) =>
        if !caller.Missed? then (s, Nothing)
        else
          var res := CompileWith(c, Some(caller.env), caller.req);
          if res.Ok? then (With(s, id, Built(caller.req, res.program)), Nothing)
          else (With(s, id, Idle), Returned(caller.req, Rejected))
      case Insert(_) =>
        if !caller.Built? then (s, Nothing)
        else
          (With(s.(cache := s.cache[CacheKey(caller.req) := caller.program]), id, Idle),
           Returned(caller.req, Ok(caller.program)))
  }

  /** An engine starts with nothing cached and nobody in flight. */
  function Fresh<P, Env>(): State<P, Env> {
    State(map[], map[], map[])
  }

  /** The events of a whole run. */
  ghost function Events<P, Env>(c: Compiler<P, Env>, s: State<P, Env>, actions: seq<Action>): seq<Event<P>>
    decreases |actions|
  {
    if actions == [] then []
    else var (s', ev) := Act(c, s, actions[0]); [ev] + Events(c, s', actions[1..])
  }

  predicate Asks(actions: seq<Action>, among: Requests) {
    forall i :: 0 <= i < |actions| && actions[i].FindEnv? ==> among(actions[i].req)
  }

  ghost predicate Honest<P, Env>(c: Compiler<P, Env>, ev: Event<P>) {
    ev.Returned? ==> ev.result == CompileUncached(c, ev.req)
  }

  ghost predicate AllHonest<P, Env>(c: Compiler<P, Env>, events: seq<Event<P>>) {
    forall i :: 0 <= i < |events| ==> Honest(c, events[i])
  }

  // ---- What the requests have to be ---------------------------------------------------------

  /** One environment is kept for both. */
  predicate SameEnv(a: Request, b: Request) {
    a.loopNames == b.loopNames || (a.loopNames != [] && b.loopNames != [] && Join(a.loopNames) == Join(b.loopNames))
  }

  /** Some request among these brings about an environment for this one. */
  ghost predicate Obtains<P, Env>(c: Compiler<P, Env>, among: Requests, r: Request) {
    exists a :: among(a) && SameEnv(a, r) && c.extend(a.loopNames).Some?
  }

  /** The requests that get as far as a lookup. */
  ghost function Served<P, Env>(c: Compiler<P, Env>, among: Requests): Requests {
    r => among(r) && Obtains(c, among, r)
  }

  /** Among these, a shared environment makes no difference. */
  ghost predicate OneEnvOneAnswer<P, Env>(c: Compiler<P, Env>, among: Requests) {
    forall a, b :: among(a) && among(b) && SameEnv(a, b) && c.extend(a.loopNames).Some? ==>
      CompileWith(c, c.extend(a.loopNames), b) == CompileUncached(c, b)
  }

  /** Whatever is shared among these requests, each is answered as if alone. */
  ghost predicate SharedAlike<P, Env>(c: Compiler<P, Env>, among: Requests) {
    OneKeyOneAnswer(c, Served(c, among)) && OneEnvOneAnswer(c, among)
  }

  lemma CleanShareAlike<P, Env>(c: Compiler<P, Env>)
    ensures SharedAlike(c, Clean)
  {
    CleanAgree(c);
    forall a, b | Clean(a) && Clean(b) && SameEnv(a, b) ensures a.loopNames == b.loopNames {
      JoinInjective(a.loopNames, b.loopNames);
    }
  }

  // ---- Every step keeps the engine sound ------------------------------------------------------

  /** The environment answers for the request as its own would. */
  ghost predicate Stands<P, Env>(c: Compiler<P, Env>, env: Env, r: Request) {
    CompileWith(c, Some(env), r) == CompileUncached(c, r)
  }

  ghost predicate KeptEnvsSound<P, Env>(c: Compiler<P, Env>, envs: map<string, Env>, among: Requests) {
    forall r :: among(r) && r.loopNames != [] && Join(r.loopNames) in envs ==>
      Served(c, among)(r) && Stands(c, envs[Join(r.loopNames)], r)
  }

  ghost predicate CallerSound<P, Env>(c: Compiler<P, Env>, caller: Caller<P, Env>, among: Requests) {
    match caller
    case Idle => true
    case EnvMissed(r) => among(r) && (r.loopNames == [] ==> c.extend(r.loopNames).None?)
    case EnvBuilt(r, env) => among(r) && r.loopNames != [] && c.extend(r.loopNames) == Some(env)
    case Ready(r, env) => Served(c, among)(r) && Stands(c, env, r)
    case Missed(r, env) => Served(c, among)(r) && Stands(c, env, r)
    case Built(r, program) => Served(c, among)(r) && CompileUncached(c, r) == Ok(program)
  }

  ghost predicate StateSound<P, Env>(c: Compiler<P, Env>, s: State<P, Env>, among: Requests) {
    && CacheSound(c, s.cache, Served(c, among)) && KeptEnvsSound(c, s.envs, among)
    && forall id :: id in s.callers ==> CallerSound(c, s.callers[id], among)
  }

  lemma OwnEnvStands<P, Env>(c: Compiler<P, Env>, among: Requests, r: Request, env: Env)
    requires among(r) && c.extend(r.loopNames) == Some(env)
    ensures Served(c, among)(r) && Stands(c, env, r)
  {
    assert SameEnv(r, r);
  }

  lemma InsertEnvSound<P, Env>(c: Compiler<P, Env>, envs: map<string, Env>, among: Requests, r: Request, env: Env)
    requires KeptEnvsSound(c, envs, among) && OneEnvOneAnswer(c, among)
    requires among(r) && r.loopNames != [] && c.extend(r.loopNames) == Some(env)
    ensures KeptEnvsSound(c, envs[Join(r.loopNames) := env], among)
  {
    forall q | among(q) && q.loopNames != [] && Join(q.loopNames) == Join(r.loopNames)
      ensures Served(c, among)(q) && Stands(c, env, q)
    {
      assert SameEnv(r, q);
    }
  }

  lemma FindSound<P, Env>(c: Compiler<P, Env>, s: State<P, Env>, among: Requests, r: Request)
    requires StateSound(c, s, among) && among(r) && Found(c, s, r).Some?
    ensures Served(c, among)(r) && Stands(c, Found(c, s, r).value, r)
  {
    if r.loopNames == [] { OwnEnvStands(c, among, r, Found(c, s, r).value); }
  }

  lemma EnvActKeepsSound<P, Env>(c: Compiler<P, Env>, s: State<P, Env>, a: Action, among: Requests)
    requires StateSound(c, s, among) && SharedAlike(c, among) && (a.FindEnv? ==> among(a.req))
    requires a.FindEnv? || a.BuildEnv? || a.InsertEnv?
    ensures StateSound(c, Act(c, s, a).0, among) && Honest(c, Act(c, s, a).1)
  {
    var caller := CallerOf(s, a.caller);
    if a.FindEnv? && Found(c, s, a.req).Some? { FindSound(c, s, among, a.req); }
    if a.InsertEnv? && caller.EnvBuilt? {
      OwnEnvStands(c, among, caller.req, caller.env);
      InsertEnvSound(c, s.envs, among, caller.req, caller.env);
    }
  }

  /** Every step of every caller keeps the cached environments, the cached programs and those in flight
      sound, and answers honestly. */
  lemma ActKeepsSound<P, Env>(c: Compiler<P, Env>, s: State<P, Env>, a: Action, among: Requests)
    requires StateSound(c, s, among) && SharedAlike(c, among) && (a.FindEnv? ==> among(a.req))
    ensures StateSound(c, Act(c, s, a).0, among) && Honest(c, Act(c, s, a).1)
  {
    if a.FindEnv? || a.BuildEnv? || a.InsertEnv? {
      EnvActKeepsSound(c, s, a, among);
    } else if a.Insert? && CallerOf(s, a.caller).Built? {
      var caller := CallerOf(s, a.caller);
      InsertKeepsSound(c, s.cache, Served(c, among), caller.req, caller.program);
    }
  }

  lemma {:induction false} RunIsHonest<P, Env>(c: Compiler<P, Env>, s: State<P, Env>, actions: seq<Action>,
                                               among: Requests)
    requires StateSound(c, s, among) && SharedAlike(c, among) && Asks(actions, among)
    ensures AllHonest(c, Events(c, s, actions))
    decreases |actions|
  {
    if actions != [] {
      ActKeepsSound(c, s, actions[0], among);
      RunIsHonest(c, Act(c, s, actions[0]).0, actions[1..], among);
    }
  }

  /** In every interleaving of lookups, compilations, inserts and resets by any number of callers, of
      environments and of programs, on an engine that starts empty, every answer is the uncached
      compiler's answer to that request. */
  lemma EveryAnswerIsHonest<P, Env>(c: Compiler<P, Env>, actions: seq<Action>)
    requires Asks(actions, Clean)
    ensures AllHonest(c, Events(c, Fresh(), actions))
  {
    CleanShareAlike(c);
    RunIsHonest(c, Fresh(), actions, Clean);
  }

  // ---- Runs that are not honest ---------------------------------------------------------------

  ghost function StateAfter<P, Env>(c: Compiler<P, Env>, s: State<P, Env>, actions: seq<Action>): State<P, Env>
    decreases |actions|
  {
    if actions == [] then s else StateAfter(c, Act(c, s, actions[0]).0, actions[1..])
  }

  /** A run that asks only for these requests leads from the empty engine to s. */
  ghost predicate Leads<P, Env>(c: Compiler<P, Env>, among: Requests, run: seq<Action>, s: State<P, Env>) {
    StateAfter(c, Fresh(), run) == s && Asks(run, among)
  }

  lemma {:induction false} LastAct<P, Env>(c: Compiler<P, Env>, s: State<P, Env>, run: seq<Action>, a: Action)
    ensures StateAfter(c, s, run + [a]) == Act(c, StateAfter(c, s, run), a).0
    ensures Events(c, s, run + [a]) == Events(c, s, run) + [Act(c, StateAfter(c, s, run), a).1]
    decreases |run|
  {
    if run == [] {
      NothingBefore([a]);
      assert [a][1..] == [];
    } else {
      var next := Act(c, s, run[0]).0;
      DropPast(run, [a], 1);
      LastAct(c, next, run[1..], a);
      Regroup([Act(c, s, run[0]).1], Events(c, next, run[1..]), [Act(c, StateAfter(c, s, run), a).1]);
    }
  }

  lemma Step<P, Env>(c: Compiler<P, Env>, among: Requests, run: seq<Action>, s: State<P, Env>, a: Action,
                     s': State<P, Env>)
    requires Leads(c, among, run, s) && (a.FindEnv? ==> among(a.req)) && Act(c, s, a).0 == s'
    ensures Leads(c, among, run + [a], s')
    ensures Ends(c, run + [a], Act(c, s, a).1)
  {
    LastAct(c, Fresh(), run, a);
  }

  /** The run's last event. */
  ghost predicate Ends<P, Env>(c: Compiler<P, Env>, run: seq<Action>, ev: Event<P>) {
    var evs := Events(c, Fresh(), run);
    evs != [] && evs[|evs| - 1] == ev
  }

  /** A free caller comes to an environment for its request: the one kept under its loop names, or else
      the request's own, which is then kept. */
  lemma GetEnv<P, Env>(c: Compiler<P, Env>, among: Requests, run: seq<Action>, s: State<P, Env>, id: nat, r: Request)
    returns (run': seq<Action>, s': State<P, Env>, env: Env)
    requires Leads(c, among, run, s) && among(r) && CallerOf(s, id) == Idle
    requires Found(c, s, r).Some? || c.extend(r.loopNames).Some?
    ensures Leads(c, among, run', s') && s'.cache == s.cache && s'.callers == s.callers[id := Ready(r, env)]
    ensures Some(env) == (if Found(c, s, r).Some? then Found(c, s, r) else c.extend(r.loopNames))
    ensures s'.envs == if Found(c, s, r).Some? then s.envs else s.envs[Join(r.loopNames) := env]
  {
    if Found(c, s, r).Some? {
      env := Found(c, s, r).value;
      run', s' := run + [FindEnv(id, r)], With(s, id, Ready(r, env));
      Step(c, among, run, s, FindEnv(id, r), s');
    } else {
      env := c.extend(r.loopNames).value;
      var s1, s2 := With(s, id, EnvMissed(r)), With(s, id, EnvBuilt(r, env));
      Step(c, among, run, s, FindEnv(id, r), s1);
      assert With(s1, id, EnvBuilt(r, env)) == s2;
      Step(c, among, run + [FindEnv(id, r)], s1, BuildEnv(id), s2);
      s' := With(s2.(envs := s.envs[Join(r.loopNames) := env]), id, Ready(r, env));
      run' := run + [FindEnv(id, r)] + [BuildEnv(id)] + [InsertEnv(id)];
      Step(c, among, run + [FindEnv(id, r)] + [BuildEnv(id)], s2, InsertEnv(id), s');
    }
  }

  /** A caller whose lookup misses compiles in its environment. */
  lemma Compiled<P, Env>(c: Compiler<P, Env>, among: Requests, run: seq<Action>, s: State<P, Env>, id: nat, r: Request,
                         env: Env)
    returns (run': seq<Action>, s': State<P, Env>)
    requires Leads(c, among, run, s) && CallerOf(s, id) == Ready(r, env) && CacheKey(r) !in s.cache
    ensures Leads(c, among, run', s') && Ends(c, run', Returned(r, CompileWith(c, Some(env), r)))
    ensures s'.envs == s.envs && s'.callers == s.callers[id := Idle]
    ensures CompileWith(c, Some(env), r).Ok? ==>
      s'.cache == s.cache[CacheKey(r) := CompileWith(c, Some(env), r).program]
  {
    var s1, res := With(s, id, Missed(r, env)), CompileWith(c, Some(env), r);
    Step(c, among, run, s, Lookup(id), s1);
    if res.Ok? {
      var s2 := With(s, id, Built(r, res.program));
      assert With(s1, id, Built(r, res.program)) == s2;
      Step(c, among, run + [Lookup(id)], s1, Build(id), s2);
      s' := With(s.(cache := s.cache[CacheKey(r) := res.program]), id, Idle);
      run' := run + [Lookup(id)] + [Build(id)] + [Insert(id)];
      Inserted(c, among, run + [Lookup(id)] + [Build(id)], s2, id, r, res.program, s');
    } else {
      s' := With(s, id, Idle);
      assert With(s1, id, Idle) == s';
      run' := run + [Lookup(id)] + [Build(id)];
      Step(c, among, run + [Lookup(id)], s1, Build(id), s');
    }
  }

  lemma Inserted<P, Env>(c: Compiler<P, Env>, among: Requests, run: seq<Action>, s: State<P, Env>, id: nat, r: Request,
                         p: P, s': State<P, Env>)
    requires Leads(c, among, run, s) && CallerOf(s, id) == Built(r, p)
    requires s' == State(s.cache[CacheKey(r) := p], s.envs, s.callers[id := Idle])
    ensures Leads(c, among, run + [Insert(id)], s') && Ends(c, run + [Insert(id)], Returned(r, Ok(p)))
  {
    Step(c, among, run, s, Insert(id), s');
  }

  /** Whatever two requests share a key, a run serves the program of the one to the other, once some
      request has brought about an environment for it. */
  lemma SharedKeyIsServed<P, Env>(c: Compiler<P, Env>, among: Requests, r: Request, a: Request, r': Request, p: P)
    returns (run: seq<Action>)
    requires among(r) && among(a) && among(r') && CacheKey(r) == CacheKey(r') && CompileUncached(c, r) == Ok(p)
    requires SameEnv(a, r') && c.extend(a.loopNames).Some?
    ensures Asks(run, among) && Ends(c, run, Returned(r', Ok(p)))
  {
    var s: State<P, Env> := Fresh();
    var env;
    run, s, env := GetEnv(c, among, [], s, 0, r);
    run, s := Compiled(c, among, run, s, 0, r, env);
    run, s, env := GetEnv(c, among, run, s, 1, a);
    run, s, env := GetEnv(c, among, run, s, 2, r');
    Step(c, among, run, s, Lookup(2), With(s, 2, Idle));
    run := run + [Lookup(2)];
  }

  /** Where one kept environment answers for two requests and wrongly for one of them, a run shows it. */
  lemma SharedEnvIsUsed<P, Env>(c: Compiler<P, Env>, among: Requests, a: Request, b: Request) returns (run: seq<Action>)
    requires among(a) && among(b) && SameEnv(a, b) && a.loopNames != [] && c.extend(a.loopNames).Some?
    ensures Asks(run, among) && Ends(c, run, Returned(b, CompileWith(c, c.extend(a.loopNames), b)))
  {
    var s: State<P, Env> := Fresh();
    var env;
    run, s, env := GetEnv(c, among, [], s, 0, a);
    run, s, env := GetEnv(c, among, run, s, 1, b);
    run, s := Compiled(c, among, run, s, 1, b, env);
  }

  lemma Dishonest<P, Env>(c: Compiler<P, Env>, run: seq<Action>, ev: Event<P>)
    requires Ends(c, run, ev) && !Honest(c, ev)
    ensures !AllHonest(c, Events(c, Fresh(), run))
  {
  }

  /** Of any set of requests: all runs that ask for them are honest if and only if among those that get as
      far as a lookup one key means one answer, and a shared environment makes no difference. */
  lemma HonestExactly<P, Env>(c: Compiler<P, Env>, among: Requests)
    ensures (forall actions :: Asks(actions, among) ==> AllHonest(c, Events(c, Fresh(), actions)))
      <==> SharedAlike(c, among)
  {
    if SharedAlike(c, among) {
      forall actions | Asks(actions, among) ensures AllHonest(c, Events(c, Fresh(), actions)) {
        RunIsHonest(c, Fresh(), actions, among);
      }
    } else {
      var run := WrongRun(c, among);
    }
  }

  lemma WrongRun<P, Env>(c: Compiler<P, Env>, among: Requests) returns (run: seq<Action>)
    requires !SharedAlike(c, among)
    ensures Asks(run, among) && !AllHonest(c, Events(c, Fresh(), run))
  {
    if !OneEnvOneAnswer(c, among) {
      var a, b :| among(a) && among(b) && SameEnv(a, b) && c.extend(a.loopNames).Some?
        && CompileWith(c, c.extend(a.loopNames), b) != CompileUncached(c, b);
      run := SharedEnvIsUsed(c, among, a, b);
      Dishonest(c, run, Returned(b, CompileWith(c, c.extend(a.loopNames), b)));
    } else {
      var served := Served(c, among);
      var a, b :| served(a) && served(b) && CacheKey(a) == CacheKey(b) && CompileUncached(c, a).Ok?
        && CompileUncached(c, b) != CompileUncached(c, a);
      var o :| among(o) && SameEnv(o, b) && c.extend(o.loopNames).Some?;
      var p := CompileUncached(c, a).program;
      run := SharedKeyIsServed(c, among, a, o, b, p);
      Dishonest(c, run, Returned(b, Ok(p)));
    }
  }

  /** Beyond the requests that can be spelled some run is not honest: a program compiled where no per-host
      `vars` is listed is handed to a request that lists the empty name, which the guard refuses, since
      it reads `vars['']`. */
  lemma UnspelledNameIsServed<P, Env>(c: Compiler<P, Env>, among: Requests, r: Request, r': Request, e: Expr,
                                      none: string, p: P)
    returns (run: seq<Action>)
    requires none == "" && e == Index(Ident(VARS), Lit(VStr(none))) && r.loopNames == []
    requires c.rewrite(r.expr, r.allowHosts).Some? && c.parse(c.rewrite(r.expr, r.allowHosts).value) == Some(e)
    requires CompileUncached(c, r) == Ok(p)
    requires r.stance.scope != HostBound && r.stance.variantInputs != [] && r.stance.variantVars == []
    requires r' == r.(stance := r.stance.(variantVars := [none])) && among(r) && among(r')
    ensures Asks(run, among) && !AllHonest(c, Events(c, Fresh(), run))
  {
    EmptyNamesAlias(r);
    run := SharedKeyIsServed(c, among, r, r, r', p);
    GuardRefuses(c, r, r', e, none);
    Dishonest(c, run, Returned(r', Ok(p)));
  }
}
