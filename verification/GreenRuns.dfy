/** When a green run of the release workflow means that the gate passed.

    Another script takes a run as green when none of its jobs has concluded anything but success and at
    least one has succeeded, jobs still waiting or running left aside, and reads that as "the gate
    passed". This is the exact condition on a workflow under which that reading is right.
 */
module GreenRuns {
  import opened ReleaseGate

  /** Every job that has concluded succeeded, and at least one has. A skipped job is not green. */
  ghost predicate Green(w: Workflow, s: State) {
    && (forall j :: j in w && j in s && Concluded(s[j]) ==> Succeeded(s[j]))
    && (exists j :: j in w && j in s && Succeeded(s[j]))
  }

  ghost predicate EveryTargetRan(w: Workflow, targets: seq<string>, s: State) {
    forall t :: t in targets ==> exists r :: RanTarget(w, s, r, t)
  }

  // ---- What one success proves --------------------------------------------------------------

  /** Some step runs the target unconditionally and in earnest. */
  predicate RunsInEarnest(job: Job, t: string) {
    exists k :: 0 <= k < |job.steps| && t in job.steps[k].targets && !job.steps[k].hasIf && job.steps[k].tolerant == No
  }

  /** The job, or one it waits for, runs the target in earnest. */
  ghost predicate Covers(w: Workflow, j: string, t: string) {
    exists r :: r in Closure(w, j) && RunsInEarnest(w[r], t)
  }

  /** Every job covers every target: whichever succeeds, all of them ran. */
  ghost predicate AllCover(w: Workflow, targets: seq<string>) {
    forall j, t :: j in w && t in targets ==> Covers(w, j, t)
  }

  /** In a green run a job has only started after all it waits for succeeded, whatever its `if:` says. */
  lemma {:induction false} PathIsGreen(w: Workflow, s: State, a: string, b: string, n: nat)
    requires Inv(w, s) && Green(w, s) && a in w && Succeeded(s[a]) && Reaches(w, a, b, n)
    ensures Succeeded(s[b])
    decreases n
  {
    if n > 0 {
      var m :| Reaches(w, a, m, n - 1) && b in w[m].needs;
      PathIsGreen(w, s, a, m, n - 1);
      assert NeedsConcluded(w, s, m);
    }
  }

  lemma EarnestPassed(w: Workflow, s: State, r: string, t: string)
    requires Inv(w, s) && r in w && Succeeded(s[r]) && RunsInEarnest(w[r], t)
    ensures RanTarget(w, s, r, t)
  {
    var k :| 0 <= k < |w[r].steps| && t in w[r].steps[k].targets && !w[r].steps[k].hasIf &&
      w[r].steps[k].tolerant == No;
    assert AllFine(w[r], s[r].steps) && StepFine(w[r].steps[k], s[r].steps[k]);
  }

  lemma GreenProves(w: Workflow, targets: seq<string>, run: seq<Action>, s: State)
    requires AllCover(w, targets) && Leads(w, run, s) && Green(w, s)
    ensures EveryTargetRan(w, targets, s)
  {
    RunsKeepInv(w, run, s);
    var j :| j in w && j in s && Succeeded(s[j]);
    forall t | t in targets ensures exists r :: RanTarget(w, s, r, t) {
      assert Covers(w, j, t);
      var r :| r in Closure(w, j) && RunsInEarnest(w[r], t);
      var n: nat :| Reaches(w, j, r, n);
      PathIsGreen(w, s, j, r, n);
      EarnestPassed(w, s, r, t);
    }
  }

  // ---- And no more than that ----------------------------------------------------------------

  /** The workflow is one the platform runs: needs name jobs, and lead downwards. */
  ghost predicate Ranked(w: Workflow, rank: map<string, nat>) {
    && rank.Keys == w.Keys
    && forall j, d :: j in w && d in w[j].needs ==> d in w && rank[d] < rank[j]
  }

  /** How each step ends when as little as possible runs in earnest. */
  function LeastOutcome(step: Step): Outcome {
    if step.hasIf then Skipped else if step.tolerant != No then Failed else Passed
  }

  function LeastSteps(job: Job): (outs: seq<Outcome>)
    ensures |outs| == |job.steps| && forall k :: 0 <= k < |outs| ==> outs[k] == LeastOutcome(job.steps[k])
  {
    seq(|job.steps|, k requires 0 <= k < |job.steps| => LeastOutcome(job.steps[k]))
  }

  /** The state in which exactly these jobs have succeeded, and the others wait. */
  function After(w: Workflow, done: set<string>): State {
    map j | j in w :: if j in done then Done(Success, LeastSteps(w[j])) else Waiting
  }

  /** All that the chosen jobs need is chosen. */
  ghost predicate Downward(w: Workflow, chosen: set<string>) {
    chosen <= w.Keys && forall j, d :: j in chosen && d in w[j].needs ==> d in chosen
  }

  lemma {:induction false} FindReady(w: Workflow, rank: map<string, nat>, left: set<string>, j: string)
    returns (ready: string)
    requires Ranked(w, rank) && left <= w.Keys && j in left
    ensures ready in left && forall d :: d in w[ready].needs ==> d !in left
    decreases rank[j]
  {
    if d :| d in w[j].needs && d in left {
      ready := FindReady(w, rank, left, d);
    } else {
      ready := j;
    }
  }

  lemma {:induction false} RunSteps(w: Workflow, run: seq<Action>, s: State, j: string, n: nat)
    returns (run': seq<Action>)
    requires Leads(w, run, s) && j in w && j in s && s[j] == Running([]) && n <= |w[j].steps|
    ensures Leads(w, run', s[j := Running(LeastSteps(w[j])[..n])])
    decreases n
  {
    var outs := LeastSteps(w[j]);
    if n == 0 {
      run' := run;
      assert outs[..0] == [] && s[j := Running([])] == s;
    } else {
      var before := RunSteps(w, run, s, j, n - 1);
      var a, mid := StepEnds(j, outs[n - 1]), s[j := Running(outs[..n - 1])];
      run' := before + [a];
      assert outs[..n - 1] + [outs[n - 1]] == outs[..n];
      assert Apply(mid, a) == s[j := Running(outs[..n])];
      OneMore(w, before, mid, a, run', Apply(mid, a));
    }
  }

  lemma RunChosen(w: Workflow, run: seq<Action>, s: State, j: string) returns (run': seq<Action>)
    requires Leads(w, run, s) && Enabled(w, s, Start(j))
    ensures Leads(w, run', s[j := Done(Success, LeastSteps(w[j]))])
  {
    var outs, begun := LeastSteps(w[j]), s[j := Running([])];
    OneMore(w, run, s, Start(j), run + [Start(j)], begun);
    var ran := RunSteps(w, run + [Start(j)], begun, j, |outs|);
    assert outs[..|outs|] == outs;
    var full := s[j := Running(outs)];
    assert begun[j := Running(outs)] == full;
    run' := ran + [Conclude(j, Success)];
    Concludes(w, full, j);
    assert full[j := Done(Success, outs)] == s[j := Done(Success, outs)];
    OneMore(w, ran, full, Conclude(j, Success), run', s[j := Done(Success, outs)]);
  }

  lemma Concludes(w: Workflow, s: State, j: string)
    requires j in w && j in s && s[j] == Running(LeastSteps(w[j]))
    ensures Enabled(w, s, Conclude(j, Success))
    ensures Apply(s, Conclude(j, Success)) == s[j := Done(Success, LeastSteps(w[j]))]
  {
  }

  /** One more job succeeds, all it needs having succeeded. */
  lemma EndOne(w: Workflow, done: set<string>, run: seq<Action>, j: string) returns (run': seq<Action>)
    requires Leads(w, run, After(w, done))
    requires j in w && j !in done && forall d :: d in w[j].needs ==> d in w && d in done
    ensures Leads(w, run', After(w, done + {j}))
  {
    var s := After(w, done);
    assert NeedsConcluded(w, s, j) && NeedsSatisfied(w, s, j);
    run' := RunChosen(w, run, s, j);
    assert s[j := Done(Success, LeastSteps(w[j]))] == After(w, done + {j});
  }

  lemma {:induction false} EndAll(w: Workflow, rank: map<string, nat>, chosen: set<string>, done: set<string>,
                                  run: seq<Action>)
    returns (run': seq<Action>)
    requires Ranked(w, rank) && Downward(w, chosen) && done <= chosen && Leads(w, run, After(w, done))
    ensures Leads(w, run', After(w, chosen))
    decreases |chosen - done|
  {
    var left := chosen - done;
    if left == {} {
      assert done == chosen;
      run' := run;
    } else {
      var any :| any in left;
      var j := FindReady(w, rank, left, any);
      var next := EndOne(w, done, run, j);
      assert chosen - (done + {j}) < left;
      run' := EndAll(w, rank, chosen, done + {j}, next);
    }
  }

  lemma ClosureIsDownward(w: Workflow, rank: map<string, nat>, j: string)
    requires Ranked(w, rank)
    ensures Downward(w, Closure(w, j))
  {
    forall a, d | a in Closure(w, j) && d in w[a].needs ensures d in Closure(w, j) { ReachesNext(w, j, a, d); }
  }

  /** A green run in which j has succeeded with all it waits for, and nothing else has started: a target
      j does not cover has not run. */
  lemma UncoveredIsMissed(w: Workflow, rank: map<string, nat>, j: string, t: string)
    returns (run: seq<Action>, s: State)
    requires Ranked(w, rank) && j in w && !Covers(w, j, t)
    ensures Leads(w, run, s) && Green(w, s) && s == After(w, Closure(w, j)) && forall r :: !RanTarget(w, s, r, t)
  {
    var chosen := Closure(w, j);
    ClosureIsDownward(w, rank, j);
    assert After(w, {}) == Initial(w);
    run := EndAll(w, rank, chosen, {}, []);
    s := After(w, chosen);
    assert Reaches(w, j, j, 0);
    assert Succeeded(s[j]);
    forall r ensures !RanTarget(w, s, r, t) {
      if r in w && Succeeded(s[r]) { NotInEarnest(w, s, r, t, j); }
    }
  }

  lemma NotInEarnest(w: Workflow, s: State, r: string, t: string, j: string)
    requires r in w && r in s && s[r] == Done(Success, LeastSteps(w[r])) && r in Closure(w, j) && !Covers(w, j, t)
    ensures !RanTarget(w, s, r, t)
  {
    forall k | 0 <= k < |w[r].steps| && t in w[r].steps[k].targets ensures s[r].steps[k] != Passed {
      assert !RunsInEarnest(w[r], t);
    }
  }

  /** Of every workflow the platform runs: green means that every gate target ran, in all its runs, if and
      only if every job covers every target. */
  lemma GreenMeansGateExactly(w: Workflow, targets: seq<string>, rank: map<string, nat>)
    requires Ranked(w, rank)
    ensures (forall run, s :: Leads(w, run, s) && Green(w, s) ==> EveryTargetRan(w, targets, s)) <==>
      AllCover(w, targets)
  {
    if AllCover(w, targets) {
      forall run, s | Leads(w, run, s) && Green(w, s) ensures EveryTargetRan(w, targets, s) {
        GreenProves(w, targets, run, s);
      }
    } else {
      var j, t :| j in w && t in targets && !Covers(w, j, t);
      var run, s := UncoveredIsMissed(w, rank, j, t);
      assert Leads(w, run, s) && Green(w, s) && !EveryTargetRan(w, targets, s);
    }
  }

  // ---- On an accepted workflow --------------------------------------------------------------

  lemma {:induction false} ReachesOn(w: Workflow, j: string, g: string, n: nat, b: string, m: nat)
    requires Reaches(w, j, g, n) && Reaches(w, g, b, m)
    ensures Reaches(w, j, b, n + m)
    decreases m
  {
    if m > 0 {
      var c :| Reaches(w, g, c, m - 1) && b in w[c].needs;
      ReachesOn(w, j, g, n, c, m - 1);
    }
  }

  /** Every job of an accepted workflow stands behind one that runs gate targets, so it comes down to
      those: each of them has to cover them all. */
  lemma GateRunnersDecide(w: Workflow, targets: seq<string>, p: string)
    requires Accepted(w, targets, p)
    ensures AllCover(w, targets)
      <==> forall g, t :: g in GateRunners(w, targets) && t in targets ==> Covers(w, g, t)
  {
    if forall g, t :: g in GateRunners(w, targets) && t in targets ==> Covers(w, g, t) {
      forall j, t | j in w && t in targets ensures Covers(w, j, t) {
        if j !in GateRunners(w, targets) { BehindCovers(w, targets, j, t); }
      }
    }
  }

  lemma BehindCovers(w: Workflow, targets: seq<string>, j: string, t: string)
    requires j in w && Behind(w, targets, j) && j !in GateRunners(w, targets) && t in targets
    requires forall g, u :: g in GateRunners(w, targets) && u in targets ==> Covers(w, g, u)
    ensures Covers(w, j, t)
  {
    var g :| g in Closure(w, j) * GateRunners(w, targets);
    var n: nat :| Reaches(w, j, g, n);
    assert Covers(w, g, t);
    var r :| r in Closure(w, g) && RunsInEarnest(w[r], t);
    var m: nat :| Reaches(w, g, r, m);
    ReachesOn(w, j, g, n, r, m);
  }

  /** With one job to run the whole gate, as the workflow is written today, acceptance is enough. */
  lemma OneGateJobSuffices(w: Workflow, targets: seq<string>, p: string, g: string)
    requires Accepted(w, targets, p) && GateRunners(w, targets) == {g}
    ensures AllCover(w, targets)
  {
    forall t | t in targets ensures Covers(w, g, t) { LoneRunnerCovers(w, targets, p, g, t); }
    GateRunnersDecide(w, targets, p);
  }

  lemma LoneRunnerCovers(w: Workflow, targets: seq<string>, p: string, g: string, t: string)
    requires Gates(w, p, t) && t in targets && GateRunners(w, targets) == {g}
    ensures Covers(w, g, t)
  {
    var r :| r in Closure(w, p) && RunsTarget(w[r], t);
    assert r in GateRunners(w, targets);
    assert Reaches(w, g, g, 0);
    EarnestStep(w[g], t);
  }

  lemma EarnestStep(job: Job, t: string)
    requires RunsTarget(job, t) && Earnest(job, t)
    ensures RunsInEarnest(job, t)
  {
    var k :| 0 <= k < |job.steps| && t in job.steps[k].targets;
  }

  // ---- An accepted workflow whose green runs prove too little --------------------------------

  /** Two jobs, each running one gate target, and a publisher that needs both. */
  function TwoGates(a: string, b: string, p: string, t: string, u: string): Workflow {
    map[
      a := Job([], NoIf, No, [Step(false, No, {t})], false),
      b := Job([], NoIf, No, [Step(false, No, {u})], false),
      p := Job([a, b], NoIf, No, [Step(false, No, {})], true)]
  }

  lemma ReachesOne(w: Workflow, p: string, b: string)
    requires p in w && b in w && b in w[p].needs
    ensures b in Closure(w, p)
  {
    assert Reaches(w, p, p, 0);
    assert Reaches(w, p, b, 1);
  }

  /** What makes a workflow of three such jobs, whatever else it holds. */
  ghost predicate ThreeJobs(w: Workflow, a: string, b: string, p: string, t: string, u: string) {
    && w.Keys == {a, b, p} && a in w[p].needs && b in w[p].needs
    && RunsTarget(w[a], t) && RunsTarget(w[b], u) && OnlyPublisher(w, p)
    && forall j :: j in w ==>
      Sound(w[j]) && Earnest(w[j], t) && Earnest(w[j], u) && forall d :: d in w[j].needs ==> d in w
  }

  lemma TwoGatesShape(a: string, b: string, p: string, t: string, u: string, w: Workflow)
    requires a != b && a != p && b != p && w == TwoGates(a, b, p, t, u)
    ensures ThreeJobs(w, a, b, p, t, u)
  {
    assert t in w[a].steps[0].targets && u in w[b].steps[0].targets;
  }

  lemma TwoGatesAccepted(a: string, b: string, p: string, t: string, u: string, w: Workflow, targets: seq<string>)
    requires ThreeJobs(w, a, b, p, t, u) && targets == [t, u]
    ensures Accepted(w, targets, p)
  {
    ReachesOne(w, p, a);
    ReachesOne(w, p, b);
    GateHeld(w, p, a, t);
    GateHeld(w, p, b, u);
    RunnersBehind(w, targets, p, a, t);
    RunnersBehind(w, targets, p, b, u);
  }

  lemma GateHeld(w: Workflow, p: string, r: string, t: string)
    requires r in Closure(w, p) && RunsTarget(w[r], t) && forall j :: j in w ==> Earnest(w[j], t)
    ensures Gates(w, p, t)
  {
  }

  lemma RunnersBehind(w: Workflow, targets: seq<string>, p: string, r: string, t: string)
    requires r in Closure(w, p) && RunsTarget(w[r], t) && t in targets
    ensures Behind(w, targets, r) && Behind(w, targets, p)
  {
    assert r in GateRunners(w, targets);
    assert r in Closure(w, p) * GateRunners(w, targets);
  }

  /** It is accepted, and in a green run of it one gate job has succeeded while the other waits, so that
      its target has not run. */
  lemma OneGateIsGreen(a: string, b: string, p: string, t: string, u: string, w: Workflow)
    returns (run: seq<Action>, s: State)
    requires a != b && a != p && b != p && t != u && w == TwoGates(a, b, p, t, u)
    ensures Accepted(w, [t, u], p) && Leads(w, run, s) && Green(w, s) && s == After(w, {a})
    ensures forall r :: !RanTarget(w, s, r, u)
  {
    TwoGatesShape(a, b, p, t, u, w);
    TwoGatesAccepted(a, b, p, t, u, w, [t, u]);
    var rank := TwoGatesRank(a, b, p, t, u, w);
    LoneUncovered(w, a, u);
    run, s := UncoveredIsMissed(w, rank, a, u);
  }

  lemma TwoGatesRank(a: string, b: string, p: string, t: string, u: string, w: Workflow)
    returns (rank: map<string, nat>)
    requires a != b && a != p && b != p && t != u && w == TwoGates(a, b, p, t, u)
    ensures Ranked(w, rank) && a in w && w[a].needs == [] && !RunsInEarnest(w[a], u)
  {
    rank := map[a := 0, b := 0, p := 1];
  }

  lemma LoneUncovered(w: Workflow, a: string, u: string)
    requires a in w && w[a].needs == [] && !RunsInEarnest(w[a], u)
    ensures Closure(w, a) == {a} && !Covers(w, a, u)
  {
    assert Reaches(w, a, a, 0);
    forall r | r in Closure(w, a) ensures r == a {
      var n: nat :| Reaches(w, a, r, n);
      NeedsNothing(w, a, r, n);
    }
  }
}
