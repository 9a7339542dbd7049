/** The release gate: a checker of a workflow, and what its acceptance means for every run of it.

    The workflow is given as jobs and steps already read. What runs do is stated as a state machine over
    job starts, step outcomes and conclusions, following the platform's rules as the checker describes
    them.
 */
module ReleaseGate {

  /** `continue-on-error`: anything that is not plainly false counts as present. */
  datatype Tolerance = No | Yes | Unknown

  /** A job's `if:`, as far as the checker tells them apart. */
  datatype Condition = NoIf | PlainIf | StatusIf | BlockIf

  datatype Step = Step(hasIf: bool, tolerant: Tolerance, targets: set<string>)

  datatype Job = Job(needs: seq<string>, cond: Condition, tolerant: Tolerance, steps: seq<Step>, publishes: bool)

  type Workflow = map<string, Job>

  predicate RunsTarget(job: Job, t: string) {
    exists k :: 0 <= k < |job.steps| && t in job.steps[k].targets
  }

  // ---- What a job needs -------------------------------------------------------------------

  /** b is n `needs:` edges away from a. */
  ghost predicate Reaches(w: Workflow, a: string, b: string, n: nat)
    decreases n
  {
    b in w && if n == 0 then a == b else exists m :: Reaches(w, a, m, n - 1) && b in w[m].needs
  }

  ghost function Closure(w: Workflow, root: string): set<string> {
    set b | b in w && exists n: nat :: Reaches(w, root, b, n)
  }

  /** The jobs a job waits for, directly or not. */
  ghost function Upstream(w: Workflow, root: string): set<string> {
    set b | b in w && exists n: nat :: n > 0 && Reaches(w, root, b, n)
  }

  /** Whatever a member of s needs is in s or still to be visited. */
  ghost predicate Closed(w: Workflow, s: set<string>, stack: seq<string>) {
    forall a, d :: a in s && a in w && d in w[a].needs && d in w ==> d in s || d in stack
  }

  lemma {:induction false} ClosedHoldsAll(w: Workflow, s: set<string>, root: string, b: string, n: nat)
    requires Closed(w, s, []) && root in s && Reaches(w, root, b, n)
    ensures b in s
    decreases n
  {
    if n > 0 {
      var m :| Reaches(w, root, m, n - 1) && b in w[m].needs;
      ClosedHoldsAll(w, s, root, m, n - 1);
    }
  }

  lemma ReachesNext(w: Workflow, root: string, a: string, d: string)
    requires a in Closure(w, root) && d in w[a].needs && d in w
    ensures d in Closure(w, root) && d in Upstream(w, root)
  {
    var n: nat :| Reaches(w, root, a, n);
    assert Reaches(w, root, d, n + 1);
  }

  datatype Problem =
    | EmptyGate | NotOnePublisher
    | MissingNeed(job: string, dep: string)
    | NothingRuns(target: string) | RunsBeside(target: string)
    | StepIf(target: string, job: string) | StepTolerant(target: string, job: string)
    | JobTolerant(job: string) | JobStatusIf(job: string) | JobBlockIf(job: string)
    | Early(job: string)

  ghost predicate Missing(w: Workflow, among: set<string>, p: Problem) {
    p.MissingNeed? && p.job in among && p.job in w && p.dep in w[p.job].needs && p.dep !in w
  }

  /** Exactly the reachable jobs, cycles or not, and every need that is no job of the workflow. */
  method NeedsClosure(w: Workflow, root: string) returns (seen: set<string>, problems: seq<Problem>)
    requires root in w
    ensures seen == Closure(w, root)
    ensures Reported(w, seen, problems)
  {
    seen, problems := {}, [];
    var stack := [root];
    assert Reaches(w, root, root, 0);
    while stack != []
      invariant seen <= Closure(w, root) && Within(stack, Closure(w, root))
      invariant (root in seen || root in stack) && Closed(w, seen, stack)
      invariant Reported(w, seen, problems)
      decreases |w.Keys - seen|, |stack|
    {
      var name := stack[|stack| - 1];
      var rest := stack[..|stack| - 1];
      Popped(w, seen, stack, Closure(w, root));
      if name in seen {
        stack := rest;
      } else {
        assert w.Keys - (seen + {name}) < w.Keys - seen;
        var found;
        stack, found := PushNeeds(w, root, name, rest);
        Visited(w, seen, name, rest, stack, problems, found);
        problems := problems + found;
        seen := seen + {name};
      }
    }
    AllSeen(w, root, seen);
  }

  ghost predicate Within(stack: seq<string>, all: set<string>) {
    forall i :: 0 <= i < |stack| ==> stack[i] in all
  }

  ghost predicate Reported(w: Workflow, among: set<string>, problems: seq<Problem>) {
    forall p :: p in problems <==> Missing(w, among, p)
  }

  lemma Popped(w: Workflow, seen: set<string>, stack: seq<string>, all: set<string>)
    requires stack != [] && Within(stack, all) && Closed(w, seen, stack)
    ensures var rest, name := stack[..|stack| - 1], stack[|stack| - 1];
      && name in all && Within(rest, all) && (forall x :: x in stack <==> x in rest || x == name)
      && Closed(w, seen + {name}, rest + if name in w then w[name].needs else [])
      && (name in seen ==> Closed(w, seen, rest))
  {
    assert stack == stack[..|stack| - 1] + [stack[|stack| - 1]];
  }

  lemma Visited(w: Workflow, seen: set<string>, name: string, rest: seq<string>, stack: seq<string>,
                problems: seq<Problem>,
                found: seq<Problem>)
    requires name in w && Closed(w, seen + {name}, rest + w[name].needs)
    requires forall d :: d in stack <==> d in rest || (d in w && d in w[name].needs)
    requires Reported(w, seen, problems) && Reported(w, {name}, found)
    ensures Closed(w, seen + {name}, stack) && Reported(w, seen + {name}, problems + found)
  {
  }

  lemma AllSeen(w: Workflow, root: string, seen: set<string>)
    requires Closed(w, seen, []) && root in seen && seen <= Closure(w, root)
    ensures seen == Closure(w, root)
  {
    forall b | b in Closure(w, root) ensures b in seen {
      var n: nat :| Reaches(w, root, b, n);
      ClosedHoldsAll(w, seen, root, b, n);
    }
  }

  method PushNeeds(w: Workflow, ghost root: string, name: string, stack: seq<string>)
    returns (stack': seq<string>, problems: seq<Problem>)
    requires name in Closure(w, root) && Within(stack, Closure(w, root))
    ensures Within(stack', Closure(w, root))
    ensures forall d :: d in stack' <==> d in stack || (d in w && d in w[name].needs)
    ensures Reported(w, {name}, problems)
  {
    stack', problems := stack, [];
    var needs := w[name].needs;
    for i := 0 to |needs|
      invariant Within(stack', Closure(w, root))
      invariant forall d :: d in stack' <==> d in stack || (d in w && d in needs[..i])
      invariant forall p :: p in problems <==> p.MissingNeed? && p.job == name && p.dep in needs[..i] && p.dep !in w
    {
      assert needs[..i + 1] == needs[..i] + [needs[i]];
      if needs[i] in w {
        ReachesNext(w, root, name, needs[i]);
        stack' := stack' + [needs[i]];
      } else {
        problems := problems + [MissingNeed(name, needs[i])];
      }
    }
    assert needs[..|needs|] == needs;
  }

  // ---- What the checker accepts -----------------------------------------------------------

  ghost predicate Sound(job: Job) {
    job.tolerant == No && (job.cond == NoIf || job.cond == PlainIf)
  }

  /** Every step of the job that runs the target runs it unconditionally and in earnest. */
  ghost predicate Earnest(job: Job, t: string) {
    forall k :: 0 <= k < |job.steps| && t in job.steps[k].targets ==> !job.steps[k].hasIf && job.steps[k].tolerant == No
  }

  ghost predicate OnlyPublisher(w: Workflow, p: string) {
    p in w && w[p].publishes && forall j :: j in w && w[j].publishes ==> j == p
  }

  ghost predicate Gates(w: Workflow, p: string, t: string) {
    && (exists r :: r in Closure(w, p) && RunsTarget(w[r], t))
    && (forall r :: r in Closure(w, p) ==> Earnest(w[r], t))
  }

  ghost function GateRunners(w: Workflow, targets: seq<string>): set<string> {
    set j | j in w && exists t :: t in targets && RunsTarget(w[j], t)
  }

  ghost predicate Behind(w: Workflow, targets: seq<string>, j: string) {
    j in GateRunners(w, targets) || Closure(w, j) * GateRunners(w, targets) != {}
  }

  /** The checks on the release workflow, all passed. */
  ghost predicate Accepted(w: Workflow, targets: seq<string>, p: string) {
    targets != [] && OnlyPublisher(w, p) && SoundPath(w, p) && AllGate(w, targets, p) && AllBehind(w, targets)
  }

  ghost predicate SoundPath(w: Workflow, p: string) {
    && (forall j, d :: j in Closure(w, p) && d in w[j].needs ==> d in w)
    && (forall j :: j in Closure(w, p) ==> Sound(w[j]))
  }

  ghost predicate AllGate(w: Workflow, targets: seq<string>, p: string) {
    forall t :: t in targets ==> Gates(w, p, t)
  }

  ghost predicate AllBehind(w: Workflow, targets: seq<string>) {
    forall j :: j in w ==> Behind(w, targets, j)
  }

  ghost predicate HasStep(job: Job, t: string) {
    exists k :: 0 <= k < |job.steps| && t in job.steps[k].targets
  }

  ghost predicate HasAnyStep(job: Job, targets: seq<string>) {
    exists t :: t in targets && HasStep(job, t)
  }

  /** On the publisher's path every need is a job, no failure is tolerated and no needs are dropped. */
  ghost predicate CleanPath(w: Workflow, p: string) {
    forall j :: j in Closure(w, p) ==>
      && (forall d :: d in w[j].needs ==> d in w)
      && w[j].tolerant == No && w[j].cond != StatusIf && w[j].cond != BlockIf
  }

  /** Some job on it runs the target, and every step on it that does runs it unconditionally and in earnest. */
  ghost predicate GateOnPath(w: Workflow, p: string, t: string) {
    && (exists j :: j in Closure(w, p) && HasStep(w[j], t))
    && (forall j, k :: j in Closure(w, p) && 0 <= k < |w[j].steps| && t in w[j].steps[k].targets ==>
          !w[j].steps[k].hasIf && w[j].steps[k].tolerant == No)
  }

  /** Every job runs a gate target or waits for one that does. */
  ghost predicate NoneEarly(w: Workflow, targets: seq<string>) {
    forall j :: j in w ==> GateAbove(w, targets, j)
  }

  ghost predicate GateAbove(w: Workflow, targets: seq<string>, j: string) {
    exists g :: g in Closure(w, j) && HasAnyStep(w[g], targets)
  }

  /** The acceptance, spelled out over jobs, needs and steps. */
  ghost predicate Passes(w: Workflow, targets: seq<string>, p: string) {
    targets != [] && SolePublisher(w, p) && CleanPath(w, p) && GatesOnPath(w, targets, p) && NoneEarly(w, targets)
  }

  ghost predicate SolePublisher(w: Workflow, p: string) {
    p in w && forall j :: j in w ==> (w[j].publishes <==> j == p)
  }

  ghost predicate GatesOnPath(w: Workflow, targets: seq<string>, p: string) {
    forall t :: t in targets ==> GateOnPath(w, p, t)
  }

  lemma AcceptedPasses(w: Workflow, targets: seq<string>, p: string)
    requires Accepted(w, targets, p)
    ensures Passes(w, targets, p)
  {
    PublisherExactly(w, p);
    CleanPathExactly(w, p);
    GatesOnPathExactly(w, targets, p);
    NoneEarlyExactly(w, targets);
  }

  lemma PassesAccepted(w: Workflow, targets: seq<string>, p: string)
    requires Passes(w, targets, p)
    ensures Accepted(w, targets, p)
  {
    PublisherExactly(w, p);
    CleanPathExactly(w, p);
    GatesOnPathExactly(w, targets, p);
    NoneEarlyExactly(w, targets);
  }

  lemma AcceptedExactly(w: Workflow, targets: seq<string>, p: string)
    ensures Accepted(w, targets, p) <==> Passes(w, targets, p)
  {
    if Accepted(w, targets, p) {
      AcceptedPasses(w, targets, p);
    } else if Passes(w, targets, p) {
      PassesAccepted(w, targets, p);
    }
  }

  lemma PublisherExactly(w: Workflow, p: string)
    ensures OnlyPublisher(w, p) <==> SolePublisher(w, p)
  {
  }

  lemma GatesOnPathExactly(w: Workflow, targets: seq<string>, p: string)
    ensures AllGate(w, targets, p) <==> GatesOnPath(w, targets, p)
  {
    forall t ensures Gates(w, p, t) <==> GateOnPath(w, p, t) { GatesExactly(w, p, t); }
  }

  lemma CleanPathExactly(w: Workflow, p: string)
    ensures CleanPath(w, p) <==> SoundPath(w, p)
  {
  }

  lemma GatesExactly(w: Workflow, p: string, t: string)
    ensures Gates(w, p, t) <==> GateOnPath(w, p, t)
  {
    if j :| j in Closure(w, p) && RunsTarget(w[j], t) { assert HasStep(w[j], t); }
    if j :| j in Closure(w, p) && HasStep(w[j], t) { assert RunsTarget(w[j], t); }
  }

  lemma NoneEarlyExactly(w: Workflow, targets: seq<string>)
    ensures NoneEarly(w, targets) <==> AllBehind(w, targets)
  {
    forall j | j in w ensures Behind(w, targets, j) <==> GateAbove(w, targets, j) { BehindExactly(w, targets, j); }
  }

  lemma RunnersExactly(w: Workflow, targets: seq<string>, g: string)
    requires g in w
    ensures g in GateRunners(w, targets) <==> HasAnyStep(w[g], targets)
  {
    if t :| t in targets && HasStep(w[g], t) { assert RunsTarget(w[g], t); }
    if g in GateRunners(w, targets) {
      var t :| t in targets && RunsTarget(w[g], t);
      assert HasStep(w[g], t);
    }
  }

  lemma BehindExactly(w: Workflow, targets: seq<string>, j: string)
    requires j in w
    ensures Behind(w, targets, j) <==> GateAbove(w, targets, j)
  {
    assert Reaches(w, j, j, 0);
    RunnersExactly(w, targets, j);
    if g :| g in Closure(w, j) * GateRunners(w, targets) { RunnersExactly(w, targets, g); }
    if g :| g in Closure(w, j) && HasAnyStep(w[g], targets) {
      RunnersExactly(w, targets, g);
      assert g in Closure(w, j) * GateRunners(w, targets);
    }
  }

  // ---- The checker ------------------------------------------------------------------------

  // Each check reports exactly the faults there are: what is reported is so, and nothing is missed.

  predicate PathFault(w: Workflow, gated: set<string>, x: Problem) {
    match x
    case JobTolerant(j) => j in gated && j in w && w[j].tolerant != No
    case JobStatusIf(j) => j in gated && j in w && w[j].cond == StatusIf
    case JobBlockIf(j) => j in gated && j in w && w[j].cond == BlockIf
    case _ => false
  }

  lemma NoFaults(problems: seq<Problem>)
    ensures problems == [] <==> forall x :: x !in problems
  {
    if problems != [] { assert problems[0] in problems; }
  }

  /** The jobs of a path that could empty a `needs:` while keeping it. */
  method PathHygiene(w: Workflow, gated: set<string>) returns (problems: seq<Problem>)
    requires gated <= w.Keys
    ensures forall x :: x in problems <==> PathFault(w, gated, x)
    ensures problems == [] <==> forall j :: j in gated ==> Sound(w[j])
  {
    problems := [];
    var left := gated;
    while left != {}
      invariant left <= gated && forall x :: x in problems <==> PathFault(w, gated - left, x)
      decreases |left|
    {
      var name :| name in left;
      if w[name].tolerant != No { problems := problems + [JobTolerant(name)]; }
      match w[name].cond {
        case StatusIf => problems := problems + [JobStatusIf(name)];
        case BlockIf => problems := problems + [JobBlockIf(name)];
        case _ =>
      }
      left := left - {name};
    }
    assert gated - {} == gated;
    NoFaults(problems);
    PathIsSound(w, gated);
  }

  lemma PathIsSound(w: Workflow, gated: set<string>)
    requires gated <= w.Keys
    ensures (forall x :: !PathFault(w, gated, x)) <==> forall j :: j in gated ==> Sound(w[j])
  {
    if forall x :: !PathFault(w, gated, x) {
      forall j | j in gated ensures Sound(w[j]) {
        assert !PathFault(w, gated, JobTolerant(j)) && !PathFault(w, gated, JobStatusIf(j));
        assert !PathFault(w, gated, JobBlockIf(j));
      }
    }
  }

  predicate StepFault(job: Job, name: string, t: string, n: nat, x: Problem) {
    exists k :: 0 <= k < n && k < |job.steps| && t in job.steps[k].targets &&
      ((x == StepIf(t, name) && job.steps[k].hasIf) || (x == StepTolerant(t, name) && job.steps[k].tolerant != No))
  }

  /** The steps of one gated job that run the target. */
  method StepHygiene(job: Job, name: string, t: string) returns (problems: seq<Problem>)
    ensures forall x :: x in problems <==> StepFault(job, name, t, |job.steps|, x)
  {
    problems := [];
    for k := 0 to |job.steps|
      invariant forall x :: x in problems <==> StepFault(job, name, t, k, x)
    {
      ghost var before := problems;
      if t in job.steps[k].targets {
        if job.steps[k].hasIf { problems := problems + [StepIf(t, name)]; }
        if job.steps[k].tolerant != No { problems := problems + [StepTolerant(t, name)]; }
      }
      forall x ensures x in problems <==> StepFault(job, name, t, k + 1, x) { StepFaultNext(job, name, t, k, x); }
    }
  }

  lemma StepFaultNext(job: Job, name: string, t: string, k: nat, x: Problem)
    requires k < |job.steps|
    ensures StepFault(job, name, t, k + 1, x) <==>
      || StepFault(job, name, t, k, x)
      || (t in job.steps[k].targets && x == StepIf(t, name) && job.steps[k].hasIf)
      || (t in job.steps[k].targets && x == StepTolerant(t, name) && job.steps[k].tolerant != No)
  {
  }

  lemma EarnestExactly(job: Job, name: string, t: string)
    ensures Earnest(job, t) <==> forall x :: !StepFault(job, name, t, |job.steps|, x)
  {
    if forall x :: !StepFault(job, name, t, |job.steps|, x) {
      assert !StepFault(job, name, t, |job.steps|, StepIf(t, name));
      assert !StepFault(job, name, t, |job.steps|, StepTolerant(t, name));
    }
  }

  function RunnersOf(w: Workflow, t: string): set<string> {
    set r | r in w && RunsTarget(w[r], t)
  }

  /** What is wrong with one target: nothing runs it, no gated job does, or a gated job does not in earnest. */
  ghost predicate TargetFault(w: Workflow, gated: set<string>, t: string, x: Problem) {
    if RunnersOf(w, t) == {} then x == NothingRuns(t)
    else if RunnersOf(w, t) * gated == {} then x == RunsBeside(t)
    else RunnerFault(w, RunnersOf(w, t) * gated, t, x)
  }

  ghost predicate RunnerFault(w: Workflow, here: set<string>, t: string, x: Problem) {
    exists r :: r in here && r in w && StepFault(w[r], r, t, |w[r].steps|, x)
  }

  ghost predicate GatedInEarnest(w: Workflow, gated: set<string>, t: string)
    requires gated <= w.Keys
  {
    (exists r :: r in gated && RunsTarget(w[r], t)) && forall r :: r in gated ==> Earnest(w[r], t)
  }

  method TargetProblems(w: Workflow, gated: set<string>, t: string) returns (problems: seq<Problem>)
    requires gated <= w.Keys
    ensures forall x :: x in problems <==> TargetFault(w, gated, t, x)
    ensures problems == [] <==> GatedInEarnest(w, gated, t)
  {
    TargetIsEarnest(w, gated, t);
    var runners := RunnersOf(w, t);
    var here := runners * gated;
    if runners == {} {
      problems := [NothingRuns(t)];
    } else if here == {} {
      problems := [RunsBeside(t)];
    } else {
      problems := RunnerProblems(w, here, t);
    }
    NoFaults(problems);
  }

  method RunnerProblems(w: Workflow, here: set<string>, t: string) returns (problems: seq<Problem>)
    requires here <= w.Keys
    ensures forall x :: x in problems <==> RunnerFault(w, here, t, x)
  {
    problems := [];
    var left := here;
    while left != {}
      invariant left <= here
      invariant forall x :: x in problems <==> RunnerFault(w, here - left, t, x)
      decreases |left|
    {
      var name :| name in left;
      var found := StepHygiene(w[name], name, t);
      assert here - (left - {name}) == here - left + {name};
      problems, left := problems + found, left - {name};
    }
    assert here - {} == here;
  }

  lemma TargetIsEarnest(w: Workflow, gated: set<string>, t: string)
    requires gated <= w.Keys
    ensures (forall x :: !TargetFault(w, gated, t, x)) <==> GatedInEarnest(w, gated, t)
  {
    var here := RunnersOf(w, t) * gated;
    assert forall r :: r in gated ==> (r in here <==> RunsTarget(w[r], t));
    if RunnersOf(w, t) == {} {
      assert TargetFault(w, gated, t, NothingRuns(t));
    } else if here == {} {
      assert TargetFault(w, gated, t, RunsBeside(t));
    } else {
      RunnersInEarnest(w, here, t);
      var some :| some in here;
      assert some in gated && RunsTarget(w[some], t);
      assert forall r :: r in gated && r !in here ==> Earnest(w[r], t);
      assert forall x :: TargetFault(w, gated, t, x) <==> RunnerFault(w, here, t, x);
    }
  }

  lemma RunnersInEarnest(w: Workflow, here: set<string>, t: string)
    requires here <= w.Keys
    ensures (forall x :: !RunnerFault(w, here, t, x)) <==> forall r :: r in here ==> Earnest(w[r], t)
  {
    forall r | r in here ensures Earnest(w[r], t) <==> forall x :: !StepFault(w[r], r, t, |w[r].steps|, x) {
      EarnestExactly(w[r], r, t);
    }
    if forall x :: !RunnerFault(w, here, t, x) {
      forall r, x | r in here ensures !StepFault(w[r], r, t, |w[r].steps|, x) { assert !RunnerFault(w, here, t, x); }
    }
  }

  ghost predicate EarlyFault(w: Workflow, targets: seq<string>, x: Problem) {
    x.Early? && x.job in w && GateRunners(w, targets) != {} && !Behind(w, targets, x.job)
  }

  method EarlyJobs(w: Workflow, targets: seq<string>) returns (problems: seq<Problem>)
    ensures forall x :: x in problems <==> EarlyFault(w, targets, x)
    ensures problems == [] <==> GateRunners(w, targets) == {} || AllBehind(w, targets)
  {
    problems := [];
    var runners := set j | j in w && exists t :: t in targets && RunsTarget(w[j], t);
    assert runners == GateRunners(w, targets);
    if runners == {} { return; }
    var left := w.Keys;
    while left != {}
      invariant left <= w.Keys
      invariant forall x :: x in problems <==> EarlyFault(w, targets, x) && x.job !in left
      decreases |left|
    {
      var name :| name in left;
      var behind := name in runners;
      if !behind {
        var closure, _ := NeedsClosure(w, name);
        behind := closure * runners != {};
      }
      assert behind <==> Behind(w, targets, name);
      if !behind { problems := problems + [Early(name)]; }
      left := left - {name};
    }
    NoFaults(problems);
    EarlyExactly(w, targets);
  }

  lemma EarlyExactly(w: Workflow, targets: seq<string>)
    ensures (forall x :: !EarlyFault(w, targets, x))
      <==> GateRunners(w, targets) == {} || forall j :: j in w ==> Behind(w, targets, j)
  {
    if forall x :: !EarlyFault(w, targets, x) {
      forall j | j in w && GateRunners(w, targets) != {} ensures Behind(w, targets, j) {
        assert !EarlyFault(w, targets, Early(j));
      }
    }
  }

  ghost predicate GateFault(w: Workflow, gated: set<string>, targets: seq<string>, x: Problem) {
    exists k :: 0 <= k < |targets| && TargetFault(w, gated, targets[k], x)
  }

  method GateProblems(w: Workflow, p: string, gated: set<string>, targets: seq<string>) returns (problems: seq<Problem>)
    requires p in w && gated == Closure(w, p)
    ensures forall x :: x in problems <==> GateFault(w, gated, targets, x)
    ensures problems == [] <==> AllGate(w, targets, p)
  {
    problems := [];
    for i := 0 to |targets|
      invariant forall x :: x in problems <==> exists k :: 0 <= k < i && TargetFault(w, gated, targets[k], x)
      invariant problems == [] <==> forall k :: 0 <= k < i ==> Gates(w, p, targets[k])
    {
      var found := TargetProblems(w, gated, targets[i]);
      problems := problems + found;
    }
  }

  /** Everything that is wrong with the workflow. Without a gate or a single publisher nothing else is asked. */
  ghost predicate Fault(w: Workflow, targets: seq<string>, x: Problem) {
    if targets == [] then x == EmptyGate
    else if forall p :: !OnlyPublisher(w, p) then x == NotOnePublisher
    else exists p :: OnlyPublisher(w, p) && FaultOn(w, targets, Closure(w, p), x)
  }

  /** What is wrong with the publisher's path, with a target on it, or with a job beside it. */
  ghost predicate FaultOn(w: Workflow, targets: seq<string>, gated: set<string>, x: Problem) {
    Missing(w, gated, x) || GateFault(w, gated, targets, x) || PathFault(w, gated, x) || EarlyFault(w, targets, x)
  }

  lemma AllFound(w: Workflow, targets: seq<string>, gated: set<string>, missing: seq<Problem>, gate: seq<Problem>,
                 hygiene: seq<Problem>, early: seq<Problem>)
    requires Reported(w, gated, missing) && forall x :: x in gate <==> GateFault(w, gated, targets, x)
    requires forall x :: x in hygiene <==> PathFault(w, gated, x)
    requires forall x :: x in early <==> EarlyFault(w, targets, x)
    ensures forall x :: x in missing + gate + hygiene + early <==> FaultOn(w, targets, gated, x)
  {
  }

  lemma NoneFound(w: Workflow, targets: seq<string>, p: string, gated: set<string>, missing: seq<Problem>)
    requires targets != [] && OnlyPublisher(w, p) && gated == Closure(w, p) && Reported(w, gated, missing)
    ensures Accepted(w, targets, p) <==>
      && missing == [] && AllGate(w, targets, p) && (forall j :: j in gated ==> Sound(w[j]))
      && (GateRunners(w, targets) == {} || AllBehind(w, targets))
  {
    NoneMissing(w, gated, missing);
    GatedHasRunners(w, targets, p);
  }

  lemma FaultsOfPublisher(w: Workflow, targets: seq<string>, p: string)
    requires targets != [] && OnlyPublisher(w, p)
    ensures forall x :: Fault(w, targets, x) <==> FaultOn(w, targets, Closure(w, p), x)
  {
  }

  /** The checks on the release workflow: what is reported is exactly what is wrong, and nothing is exactly in
      the workflows that are accepted. */
  method Check(w: Workflow, targets: seq<string>) returns (problems: seq<Problem>)
    ensures forall x :: x in problems <==> Fault(w, targets, x)
    ensures problems == [] <==> exists p :: Accepted(w, targets, p)
  {
    if targets == [] { return [EmptyGate]; }
    var publishers := set j | j in w && w[j].publishes;
    if |publishers| != 1 {
      NotOne(w, publishers);
      return [NotOnePublisher];
    }
    var p :| p in publishers;
    One(w, publishers, p);
    var gated, missing := NeedsClosure(w, p);
    var gate := GateProblems(w, p, gated, targets);
    var hygiene := PathHygiene(w, gated);
    var early := EarlyJobs(w, targets);
    problems := missing + gate + hygiene + early;
    AllFound(w, targets, gated, missing, gate, hygiene, early);
    NoneFound(w, targets, p, gated, missing);
    FaultsOfPublisher(w, targets, p);
    assert problems == [] <==> Accepted(w, targets, p);
  }

  lemma NoneMissing(w: Workflow, gated: set<string>, missing: seq<Problem>)
    requires gated <= w.Keys && Reported(w, gated, missing)
    ensures missing == [] <==> forall j, d :: j in gated && d in w[j].needs ==> d in w
  {
    if missing == [] {
      forall j, d | j in gated && d in w[j].needs ensures d in w {
        assert d !in w ==> Missing(w, gated, MissingNeed(j, d));
      }
    } else {
      assert missing[0] in missing;
    }
  }

  lemma GatedHasRunners(w: Workflow, targets: seq<string>, p: string)
    requires p in w && targets != []
    ensures (forall t :: t in targets ==> Gates(w, p, t)) ==> GateRunners(w, targets) != {}
  {
    if forall t :: t in targets ==> Gates(w, p, t) {
      assert targets[0] in targets && Gates(w, p, targets[0]);
      var r :| r in Closure(w, p) && RunsTarget(w[r], targets[0]);
      assert r in GateRunners(w, targets);
    }
  }

  lemma One(w: Workflow, publishers: set<string>, p: string)
    requires publishers == (set j | j in w && w[j].publishes) && |publishers| == 1 && p in publishers
    ensures OnlyPublisher(w, p) && forall q :: OnlyPublisher(w, q) ==> q == p
  {
    assert |publishers - {p}| == 0;
    forall j | j in w && w[j].publishes ensures j == p {
      assert j in publishers && j !in publishers - {p};
    }
  }

  lemma NotOne(w: Workflow, publishers: set<string>)
    requires publishers == (set j | j in w && w[j].publishes) && |publishers| != 1
    ensures forall p :: !OnlyPublisher(w, p)
  {
    forall p ensures !OnlyPublisher(w, p) { OnlyMeansOne(w, publishers, p); }
  }

  lemma OnlyMeansOne(w: Workflow, publishers: set<string>, p: string)
    requires publishers == (set j | j in w && w[j].publishes)
    ensures OnlyPublisher(w, p) ==> publishers == {p}
  {
  }

  // ---- Runs -------------------------------------------------------------------------------

  datatype Outcome = Passed | Failed | Skipped

  datatype Result = Success | Failure

  datatype JobState =
    | Waiting
    | Running(steps: seq<Outcome>)
    | Done(result: Result, steps: seq<Outcome>)
    | SkippedJob

  type State = map<string, JobState>

  predicate Concluded(s: JobState) {
    s.Done? || s.SkippedJob?
  }

  predicate Started(s: JobState) {
    s.Running? || s.Done?
  }

  datatype Action =
    | Start(job: string)
    | Skip(job: string)
    | StepEnds(job: string, outcome: Outcome)
    | Conclude(job: string, result: Result)

  /** A dependent's `needs:` is satisfied by a success, or by a failure the job tolerates. */
  predicate Satisfies(job: Job, s: JobState) {
    s.Done? && (s.result == Success || job.tolerant != No)
  }

  predicate NeedsConcluded(w: Workflow, s: State, j: string) {
    j in w && forall d :: d in w[j].needs ==> d in w && d in s && Concluded(s[d])
  }

  predicate NeedsSatisfied(w: Workflow, s: State, j: string) {
    j in w && forall d :: d in w[j].needs ==> d in w && d in s && Satisfies(w[d], s[d])
  }

  /** How a step may end without failing its job. */
  predicate StepFine(step: Step, o: Outcome) {
    match o
    case Passed => true
    case Skipped => step.hasIf
    case Failed => step.tolerant != No
  }

  /** What the platform allows next. A status function in a job's `if:` drops the requirement that its
      needs succeeded, not the wait for them; an `if:` may let the job start or skip it, and without one
      only an unsatisfied need skips it. */
  predicate Enabled(w: Workflow, s: State, a: Action) {
    a.job in w && a.job in s &&
    var job := w[a.job];
    match a
    case Start(j) =>
      s[j].Waiting? && NeedsConcluded(w, s, j) && (job.cond in {NoIf, PlainIf} ==> NeedsSatisfied(w, s, j))
    case Skip(j) =>
      s[j].Waiting? && NeedsConcluded(w, s, j) && (job.cond == NoIf ==> !NeedsSatisfied(w, s, j))
    case StepEnds(j, o) => s[j].Running? && |s[j].steps| < |job.steps|
    case Conclude(j, r) =>
      s[j].Running? && (r == Success ==>
        |s[j].steps| == |job.steps| && forall k :: 0 <= k < |job.steps| ==> StepFine(job.steps[k], s[j].steps[k]))
  }

  /** Of a job that still waits, once all it needs has concluded: without an `if:` it starts if its needs are
      satisfied and is skipped if not; with a plain one it may be skipped either way; with a status function
      it may start either way. Before that it does neither. */
  lemma NextMoves(w: Workflow, s: State, j: string)
    requires j in w && j in s && s[j].Waiting?
    ensures !NeedsConcluded(w, s, j) ==> !Enabled(w, s, Start(j)) && !Enabled(w, s, Skip(j))
    ensures NeedsConcluded(w, s, j) && w[j].cond == NoIf ==>
      (Enabled(w, s, Start(j)) <==> NeedsSatisfied(w, s, j)) && (Enabled(w, s, Skip(j)) <==> !NeedsSatisfied(w, s, j))
    ensures NeedsConcluded(w, s, j) && w[j].cond == PlainIf ==>
      (Enabled(w, s, Start(j)) <==> NeedsSatisfied(w, s, j)) && Enabled(w, s, Skip(j))
    ensures NeedsConcluded(w, s, j) && w[j].cond in {StatusIf, BlockIf} ==>
      Enabled(w, s, Start(j)) && Enabled(w, s, Skip(j))
  {
  }

  function Apply(s: State, a: Action): State
    requires a.job in s
  {
    var was := s[a.job];
    match a
    case Start(j) => s[j := Running([])]
    case Skip(j) => s[j := SkippedJob]
    case StepEnds(j, o) => if was.Running? then s[j := Running(was.steps + [o])] else s
    case Conclude(j, r) => if was.Running? then s[j := Done(r, was.steps)] else s
  }

  function Initial(w: Workflow): State {
    map j | j in w :: Waiting
  }

  /** A run of the workflow from its first state. */
  ghost predicate Leads(w: Workflow, run: seq<Action>, s: State) {
    if run == [] then s == Initial(w)
    else
      var last := |run| - 1;
      exists before :: Leads(w, run[..last], before) && Enabled(w, before, run[last]) && s == Apply(before, run[last])
  }

  ghost predicate Inv(w: Workflow, s: State) {
    && s.Keys == w.Keys
    && (forall j :: j in w && !s[j].Waiting? ==> NeedsConcluded(w, s, j))
    && (forall j :: j in w && Started(s[j]) && w[j].cond in {NoIf, PlainIf} ==> NeedsSatisfied(w, s, j))
    && (forall j :: j in w && s[j].Done? && s[j].result == Success ==> AllFine(w[j], s[j].steps))
  }

  ghost predicate AllFine(job: Job, outs: seq<Outcome>) {
    |outs| == |job.steps| && forall k :: 0 <= k < |job.steps| ==> StepFine(job.steps[k], outs[k])
  }

  lemma StepKeepsInv(w: Workflow, s: State, a: Action)
    requires Inv(w, s) && Enabled(w, s, a)
    ensures Inv(w, Apply(s, a))
  {
    var t := Apply(s, a);
    assert forall d :: d in w && Concluded(s[d]) ==> t[d] == s[d];
    assert forall d :: d in w && d != a.job ==> t[d] == s[d];
    forall j | j in w && !t[j].Waiting? ensures NeedsConcluded(w, t, j) {
      assert NeedsConcluded(w, s, j);
    }
    forall j | j in w && Started(t[j]) && w[j].cond in {NoIf, PlainIf} ensures NeedsSatisfied(w, t, j) {
      assert NeedsSatisfied(w, s, j);
    }
  }

  lemma {:induction false} RunsKeepInv(w: Workflow, run: seq<Action>, s: State)
    requires Leads(w, run, s)
    ensures Inv(w, s)
    decreases |run|
  {
    if run != [] {
      var last := |run| - 1;
      var before :| Leads(w, run[..last], before) && Enabled(w, before, run[last]) && s == Apply(before, run[last]);
      RunsKeepInv(w, run[..last], before);
      StepKeepsInv(w, before, run[last]);
    }
  }

  /** No job runs more steps than it has. */
  lemma {:induction false} StepsWithinJob(w: Workflow, run: seq<Action>, s: State, j: string)
    requires Leads(w, run, s) && j in w
    ensures j in s && (s[j].Running? || s[j].Done? ==> |s[j].steps| <= |w[j].steps|)
    decreases |run|
  {
    if run != [] {
      var last := |run| - 1;
      var before :| Leads(w, run[..last], before) && Enabled(w, before, run[last]) && s == Apply(before, run[last]);
      StepsWithinJob(w, run[..last], before, j);
    }
  }

  // ---- What acceptance means --------------------------------------------------------------

  predicate Succeeded(s: JobState) {
    s.Done? && s.result == Success
  }

  /** Once the publisher has started, everything it waits for has succeeded. */
  lemma {:induction false} PathSucceeded(w: Workflow, targets: seq<string>, p: string, s: State, b: string, n: nat)
    requires Accepted(w, targets, p) && Inv(w, s) && Started(s[p]) && n > 0 && Reaches(w, p, b, n)
    ensures Succeeded(s[b])
    decreases n
  {
    var m :| Reaches(w, p, m, n - 1) && b in w[m].needs;
    assert m in Closure(w, p) && b in Closure(w, p);
    if n > 1 { PathSucceeded(w, targets, p, s, m, n - 1); }
    assert Sound(w[m]) && Sound(w[b]);
    assert NeedsSatisfied(w, s, m);
  }

  /** A job that ran the target for real, in a step that was neither skipped nor forgiven. */
  ghost predicate RanTarget(w: Workflow, s: State, r: string, t: string) {
    && r in w && r in s && Succeeded(s[r]) && |s[r].steps| == |w[r].steps|
    && exists k :: 0 <= k < |w[r].steps| && t in w[r].steps[k].targets && s[r].steps[k] == Passed
  }

  /** In every run of an accepted workflow in which the publisher has started, all it waits for has
      succeeded, and every gate target was run to success on that path exactly when some job on it
      other than the publisher itself runs the target. */
  lemma GateHolds(w: Workflow, targets: seq<string>, p: string, run: seq<Action>, s: State)
    requires Accepted(w, targets, p) && Leads(w, run, s) && p in s && (s[p].Running? || s[p].Done?)
    ensures forall r :: r in Upstream(w, p) ==> r in s && Succeeded(s[r])
    ensures forall t :: t in targets ==>
      ((exists r :: r in Upstream(w, p) && RanTarget(w, s, r, t)) <==>
        exists r :: r in Upstream(w, p) && RunsTarget(w[r], t))
  {
    RunsKeepInv(w, run, s);
    forall r | r in Upstream(w, p) ensures Succeeded(s[r]) {
      var n: nat :| n > 0 && Reaches(w, p, r, n);
      PathSucceeded(w, targets, p, s, r, n);
    }
    forall t | t in targets
      ensures (exists r :: r in Upstream(w, p) && RanTarget(w, s, r, t)) <==>
        exists r :: r in Upstream(w, p) && RunsTarget(w[r], t)
    {
      if r :| r in Upstream(w, p) && RunsTarget(w[r], t) {
        EarnestRan(w, targets, p, s, r, t);
        assert RanTarget(w, s, r, t);
      }
    }
  }

  lemma EarnestRan(w: Workflow, targets: seq<string>, p: string, s: State, r: string, t: string)
    requires Accepted(w, targets, p) && Inv(w, s) && t in targets
    requires r in Upstream(w, p) && RunsTarget(w[r], t) && Succeeded(s[r])
    ensures RanTarget(w, s, r, t)
  {
    var k :| 0 <= k < |w[r].steps| && t in w[r].steps[k].targets;
    assert Gates(w, p, t);
    assert r in Closure(w, p) && Earnest(w[r], t);
    assert AllFine(w[r], s[r].steps) && StepFine(w[r].steps[k], s[r].steps[k]);
  }

  /** A workflow whose one job publishes first and runs its gate target afterwards. */
  function Alone(p: string, t: string): Workflow {
    map[p := Job([], NoIf, No, [Step(false, No, {}), Step(false, No, {t})], true)]
  }

  lemma {:induction false} NeedsNothing(w: Workflow, p: string, b: string, n: nat)
    requires p in w && w[p].needs == []
    ensures Reaches(w, p, b, n) ==> n == 0 && b == p
    decreases n
  {
    if n > 0 && Reaches(w, p, b, n) {
      var m :| Reaches(w, p, m, n - 1) && b in w[m].needs;
      NeedsNothing(w, p, m, n - 1);
    }
  }

  /** It is accepted, and a run of it publishes with the target never run: the path the checker looks at
      starts with the publisher itself. */
  lemma PublisherAloneIsAccepted(p: string, t: string, w: Workflow, s: State)
    requires w == Alone(p, t) && s == map[p := Running([Passed])]
    ensures Accepted(w, [t], p) && Leads(w, [Start(p), StepEnds(p, Passed)], s)
    ensures Upstream(w, p) == {} && !(exists r :: RanTarget(w, s, r, t))
  {
    assert Reaches(w, p, p, 0);
    forall b, n: nat | Reaches(w, p, b, n) ensures n == 0 && b == p { NeedsNothing(w, p, b, n); }
    assert Closure(w, p) == {p} && Upstream(w, p) == {};
    assert t in w[p].steps[1].targets;
    assert RunsTarget(w[p], t) && Gates(w, p, t);
    assert p in GateRunners(w, [t]);
    AloneRuns(p, w, s);
  }

  lemma AloneRuns(p: string, w: Workflow, s: State)
    requires p in w && w.Keys == {p} && w[p].needs == [] && w[p].cond == NoIf && |w[p].steps| > 0
    requires s == map[p := Running([Passed])]
    ensures Leads(w, [Start(p), StepEnds(p, Passed)], s)
  {
    var init, one := Initial(w), map[p := Running([])];
    assert init == map[p := Waiting];
    LoneStarts(w, p, init, one);
    OneMore(w, [], init, Start(p), [Start(p)], one);
    FirstStepPasses(w, p, one, s);
    OneMore(w, [Start(p)], one, StepEnds(p, Passed), [Start(p), StepEnds(p, Passed)], s);
  }

  lemma LoneStarts(w: Workflow, p: string, init: State, one: State)
    requires p in w && w[p].needs == [] && init == map[p := Waiting] && one == map[p := Running([])]
    ensures Enabled(w, init, Start(p)) && Apply(init, Start(p)) == one
  {
  }

  lemma FirstStepPasses(w: Workflow, p: string, one: State, s: State)
    requires p in w && |w[p].steps| > 0 && one == map[p := Running([])] && s == map[p := Running([Passed])]
    ensures Enabled(w, one, StepEnds(p, Passed)) && Apply(one, StepEnds(p, Passed)) == s
  {
    assert one[p].steps + [Passed] == [Passed];
  }

  lemma OneMore(w: Workflow, run: seq<Action>, s: State, a: Action, run': seq<Action>, s': State)
    requires Leads(w, run, s) && Enabled(w, s, a) && run' == run + [a] && s' == Apply(s, a)
    ensures Leads(w, run', s')
  {
    assert run'[..|run|] == run;
  }

  // ---- What the hygiene is for ------------------------------------------------------------

  /** A job that starts has its needs succeeded, where the needed job tolerates no failure and its own `if:`
      names no status function. */
  lemma NeedHolds(w: Workflow, run: seq<Action>, s: State, p: string, g: string)
    requires Leads(w, run, s) && p in w && g in w && g in w[p].needs && w[g].tolerant == No
    requires w[p].cond in {NoIf, PlainIf}
    ensures p in s && g in s && (s[p].Running? || s[p].Done? ==> s[g].Done? && s[g].result == Success)
  {
    RunsKeepInv(w, run, s);
  }

  /** The publisher p needs the gate job g, and nothing else is there. */
  ghost predicate Two(w: Workflow, p: string, g: string) {
    w.Keys == {p, g} && p != g && w[p].needs == [g] && w[g].needs == []
  }

  /** Otherwise it starts over a failed need. */
  lemma NeedSlips(w: Workflow, p: string, g: string, going: State, failed: State, over: State)
    requires Two(w, p, g) && going == map[g := Running([]), p := Waiting]
    requires failed == map[g := Done(Failure, []), p := Waiting]
    requires over == map[g := Done(Failure, []), p := Running([])]
    requires w[g].tolerant != No || w[p].cond in {StatusIf, BlockIf}
    ensures Leads(w, [Start(g), Conclude(g, Failure), Start(p)], over)
  {
    var init := Initial(w);
    GateStarts(w, p, g, init, going);
    OneMore(w, [], init, Start(g), [Start(g)], going);
    GateFails(w, p, g, going, failed);
    OneMore(w, [Start(g)], going, Conclude(g, Failure), [Start(g), Conclude(g, Failure)], failed);
    StartsOver(w, p, g, failed, over);
    OneMore(w, [Start(g), Conclude(g, Failure)], failed, Start(p), [Start(g), Conclude(g, Failure), Start(p)], over);
  }

  lemma GateStarts(w: Workflow, p: string, g: string, init: State, going: State)
    requires Two(w, p, g) && init == Initial(w) && going == map[g := Running([]), p := Waiting]
    ensures Enabled(w, init, Start(g)) && Apply(init, Start(g)) == going
  {
  }

  lemma GateFails(w: Workflow, p: string, g: string, going: State, failed: State)
    requires Two(w, p, g) && going == map[g := Running([]), p := Waiting]
    requires failed == map[g := Done(Failure, []), p := Waiting]
    ensures Enabled(w, going, Conclude(g, Failure)) && Apply(going, Conclude(g, Failure)) == failed
  {
  }

  lemma StartsOver(w: Workflow, p: string, g: string, failed: State, over: State)
    requires Two(w, p, g) && failed == map[g := Done(Failure, []), p := Waiting]
    requires over == map[g := Done(Failure, []), p := Running([])]
    requires w[g].tolerant != No || w[p].cond in {StatusIf, BlockIf}
    ensures Enabled(w, failed, Start(p)) && Apply(failed, Start(p)) == over
  {
  }

  /** And with a status function over one that was skipped. */
  lemma SkipSlips(w: Workflow, p: string, g: string, skipped: State, over: State)
    requires Two(w, p, g) && w[g].cond != NoIf && w[p].cond in {StatusIf, BlockIf}
    requires skipped == map[g := SkippedJob, p := Waiting] && over == map[g := SkippedJob, p := Running([])]
    ensures Leads(w, [Skip(g), Start(p)], over)
  {
    var init := Initial(w);
    GateSkips(w, p, g, init, skipped);
    OneMore(w, [], init, Skip(g), [Skip(g)], skipped);
    OneMore(w, [Skip(g)], skipped, Start(p), [Skip(g), Start(p)], over);
  }

  lemma GateSkips(w: Workflow, p: string, g: string, init: State, skipped: State)
    requires Two(w, p, g) && w[g].cond != NoIf && init == Initial(w) && skipped == map[g := SkippedJob, p := Waiting]
    ensures Enabled(w, init, Skip(g)) && Apply(init, Skip(g)) == skipped
  {
  }

  // ---- Nothing comes before the gate ------------------------------------------------------

  lemma {:induction false} PathConcluded(w: Workflow, s: State, j: string, b: string, n: nat)
    requires Inv(w, s) && j in w && !s[j].Waiting? && n > 0 && Reaches(w, j, b, n)
    ensures Concluded(s[b])
    decreases n
  {
    var m :| Reaches(w, j, m, n - 1) && b in w[m].needs;
    if n > 1 { PathConcluded(w, s, j, m, n - 1); }
    assert NeedsConcluded(w, s, m);
  }

  /** In every run of an accepted workflow, a job that runs no gate target has not even started before
      some job that runs one has concluded. */
  lemma NothingBeforeTheGate(w: Workflow, targets: seq<string>, p: string, run: seq<Action>, s: State, j: string)
    requires Accepted(w, targets, p) && Leads(w, run, s)
    requires j in w && j in s && !s[j].Waiting? && j !in GateRunners(w, targets)
    ensures exists g :: g in GateRunners(w, targets) && g in s && Concluded(s[g])
  {
    RunsKeepInv(w, run, s);
    assert Behind(w, targets, j);
    var g :| g in Closure(w, j) * GateRunners(w, targets);
    var n: nat :| Reaches(w, j, g, n);
    PathConcluded(w, s, j, g, n);
  }
}
