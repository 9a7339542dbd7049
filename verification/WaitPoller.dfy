/** Polling a set of VMs until each is ready.

    The probe is arbitrary: what it answers is a function of the round and the VM, so every behaviour of
    a provider is some such function. `cancelled` says during which sleeps the context is cancelled, and
    `horizon` for how many rounds the run is watched, so that a poller with no limit on its attempts is
    covered too: its run is every one of its prefixes.
 */
module WaitPoller {
  import opened Backoff
  import opened Seqs
  import opened Wrappers

  datatype ProbeResult = ProbeResult(ready: bool, err: Option<string>, state: string)

  type Probe = (nat, nat) -> ProbeResult

  datatype WaitResult = WaitResult(vmID: string, ready: bool, err: Option<string>)

  /** The provider state a VM last reported, and whether it moved. */
  datatype StateTrack = StateTrack(last: string, progressed: bool)

  function Observe(t: StateTrack, state: string): StateTrack {
    if state == "" || state == t.last then t else StateTrack(state, t.progressed || t.last != "")
  }

  // ---- What becomes of one VM -------------------------------------------------------------

  datatype Fate = Waiting | Ready | Failed(err: string)

  /** Read off the probe alone: the first decisive answer in the first n rounds. */
  function FateOf(probe: Probe, i: nat, n: nat): Fate {
    if n == 0 then Waiting
    else
      var before := FateOf(probe, i, n - 1);
      if before != Waiting then before
      else
        var res := probe(n - 1, i);
        if res.err.Some? then Failed(res.err.value) else if res.ready then Ready else Waiting
  }

  /** The states it reported while it was still being polled. */
  function TrackOf(probe: Probe, i: nat, n: nat): StateTrack {
    if n == 0 then StateTrack("", false)
    else if FateOf(probe, i, n - 1) != Waiting then TrackOf(probe, i, n - 1)
    else Observe(TrackOf(probe, i, n - 1), probe(n - 1, i).state)
  }

  /** The fate is that of the first round whose answer decides, an error outranking readiness. */
  lemma {:induction false} FateIsFirstDecision(probe: Probe, i: nat, n: nat, k: nat)
    requires k < n && (forall j: nat :: j < k ==> probe(j, i).err.None? && !probe(j, i).ready)
    ensures probe(k, i).err.Some? ==> FateOf(probe, i, n) == Failed(probe(k, i).err.value)
    ensures probe(k, i).err.None? && probe(k, i).ready ==> FateOf(probe, i, n) == Ready
    ensures probe(k, i).err.None? && !probe(k, i).ready ==> FateOf(probe, i, k + 1) == Waiting
  {
    UndecidedWaits(probe, i, k);
    assert FateOf(probe, i, k) == Waiting;
    if FateOf(probe, i, k + 1) != Waiting { DecisionStands(probe, i, k + 1, n); }
  }

  lemma {:induction false} UndecidedWaits(probe: Probe, i: nat, n: nat)
    requires forall j: nat :: j < n ==> probe(j, i).err.None? && !probe(j, i).ready
    ensures FateOf(probe, i, n) == Waiting
  {
    if n > 0 { UndecidedWaits(probe, i, n - 1); }
  }

  /** A decision stands: later rounds change neither it nor what was observed. */
  lemma {:induction false} DecisionStands(probe: Probe, i: nat, n: nat, m: nat)
    requires n <= m && FateOf(probe, i, n) != Waiting
    ensures FateOf(probe, i, m) == FateOf(probe, i, n) && TrackOf(probe, i, m) == TrackOf(probe, i, n)
  {
    if n < m { DecisionStands(probe, i, n, m - 1); }
  }

  function ResultOf(id: string, fate: Fate): WaitResult {
    WaitResult(id, fate.Ready?, if fate.Failed? then Some(fate.err) else None)
  }

  // ---- What a result tells ------------------------------------------------------------------

  predicate Decides(res: ProbeResult) {
    res.err.Some? || res.ready
  }

  /** Round k is the first whose answer decides. */
  ghost predicate DecidedAt(probe: Probe, i: nat, k: nat) {
    Decides(probe(k, i)) && forall j: nat :: j < k ==> !Decides(probe(j, i))
  }

  ghost predicate Undecided(probe: Probe, i: nat, n: nat) {
    forall j: nat :: j < n ==> !Decides(probe(j, i))
  }

  /** The result of a VM after n rounds, read off the probe: the error or the readiness of its first
      decisive answer, never both, and neither while none has decided. */
  ghost predicate Tells(r: WaitResult, id: string, probe: Probe, i: nat, n: nat) {
    && r.vmID == id
    && (forall k: nat :: k < n && DecidedAt(probe, i, k) ==>
          r.err == probe(k, i).err && (r.ready <==> probe(k, i).err.None?))
    && (Undecided(probe, i, n) ==> !r.ready && r.err == None)
  }

  lemma ResultTells(id: string, probe: Probe, i: nat, n: nat)
    ensures Tells(ResultOf(id, FateOf(probe, i, n)), id, probe, i, n)
  {
    forall k: nat | k < n && DecidedAt(probe, i, k)
      ensures FateOf(probe, i, n) == if probe(k, i).err.Some? then Failed(probe(k, i).err.value) else Ready
    {
      FateIsFirstDecision(probe, i, n, k);
    }
    if Undecided(probe, i, n) { UndecidedWaits(probe, i, n); }
  }

  /** A VM waits exactly as long as no answer has decided. */
  lemma {:induction false} WaitsExactly(probe: Probe, i: nat, n: nat)
    ensures FateOf(probe, i, n) == Waiting <==> Undecided(probe, i, n)
  {
    if n > 0 {
      WaitsExactly(probe, i, n - 1);
      assert Undecided(probe, i, n) <==> Undecided(probe, i, n - 1) && !Decides(probe(n - 1, i));
    }
  }

  /** Round k is one of the first n, and its answer names a state. */
  predicate Names(probe: Probe, i: nat, n: nat, k: nat) {
    k < n && probe(k, i).state != ""
  }

  /** s is the state named last. */
  ghost predicate NamedLast(probe: Probe, i: nat, n: nat, s: string) {
    exists k: nat :: LastName(probe, i, n, k) && probe(k, i).state == s
  }

  ghost predicate LastName(probe: Probe, i: nat, n: nat, k: nat) {
    Names(probe, i, n, k) && forall j: nat :: j > k ==> !Names(probe, i, n, j)
  }

  ghost predicate NamedState(probe: Probe, i: nat, n: nat, s: string) {
    exists k: nat :: Names(probe, i, n, k) && probe(k, i).state == s
  }

  /** Two of the states named differ. */
  ghost predicate Moved(probe: Probe, i: nat, n: nat) {
    exists s, t :: s != t && NamedState(probe, i, n, s) && NamedState(probe, i, n, t)
  }

  /** What was seen of a VM in n rounds: the last state named, none if there was none, and whether it moved. */
  ghost predicate Saw(t: StateTrack, probe: Probe, i: nat, n: nat) {
    && (if t.last == "" then forall k: nat :: !Names(probe, i, n, k) else NamedLast(probe, i, n, t.last))
    && (t.progressed <==> Moved(probe, i, n))
  }

  lemma {:induction false} TrackSaw(probe: Probe, i: nat, n: nat)
    requires Undecided(probe, i, n)
    ensures Saw(TrackOf(probe, i, n), probe, i, n)
  {
    if n > 0 {
      TrackSaw(probe, i, n - 1);
      WaitsExactly(probe, i, n - 1);
      ObserveSaw(TrackOf(probe, i, n - 1), probe, i, n);
    }
  }

  lemma NamedNext(probe: Probe, i: nat, n: nat, s: string)
    requires n > 0
    ensures NamedState(probe, i, n, s) <==> NamedState(probe, i, n - 1, s) || (s != "" && s == probe(n - 1, i).state)
  {
    if NamedState(probe, i, n, s) {
      var k: nat :| Names(probe, i, n, k) && probe(k, i).state == s;
      if k < n - 1 { assert Names(probe, i, n - 1, k); }
    }
    if NamedState(probe, i, n - 1, s) {
      var k: nat :| Names(probe, i, n - 1, k) && probe(k, i).state == s;
      assert Names(probe, i, n, k);
    }
    if s != "" && s == probe(n - 1, i).state { assert Names(probe, i, n, n - 1); }
  }

  lemma ObserveSaw(t: StateTrack, probe: Probe, i: nat, n: nat)
    requires n > 0 && Saw(t, probe, i, n - 1)
    ensures Saw(Observe(t, probe(n - 1, i).state), probe, i, n)
  {
    var m, s := n - 1, probe(n - 1, i).state;
    forall u ensures NamedState(probe, i, n, u) <==> NamedState(probe, i, m, u) || (u != "" && u == s) {
      NamedNext(probe, i, n, u);
    }
    LastSeen(t, probe, i, n, s);
    if t.last != "" { LastIsNamed(probe, i, m, t.last); } else { NoneNamed(probe, i, m); }
    if Moved(probe, i, m) {
      var u, v :| u != v && NamedState(probe, i, m, u) && NamedState(probe, i, m, v);
      assert NamedState(probe, i, n, u) && NamedState(probe, i, n, v);
    }
    if s != "" && t.last != "" { assert NamedState(probe, i, n, s) && NamedState(probe, i, n, t.last); }
  }

  lemma LastIsNamed(probe: Probe, i: nat, m: nat, s: string)
    requires NamedLast(probe, i, m, s)
    ensures NamedState(probe, i, m, s)
  {
    var k: nat :| LastName(probe, i, m, k) && probe(k, i).state == s;
    assert Names(probe, i, m, k);
  }

  lemma NoneNamed(probe: Probe, i: nat, m: nat)
    requires forall k: nat :: !Names(probe, i, m, k)
    ensures forall u :: !NamedState(probe, i, m, u)
  {
  }

  lemma LastSeen(t: StateTrack, probe: Probe, i: nat, n: nat, s: string)
    requires n > 0 && s == probe(n - 1, i).state && Saw(t, probe, i, n - 1)
    ensures s != "" ==> NamedLast(probe, i, n, s)
    ensures s == "" && t.last != "" ==> NamedLast(probe, i, n, t.last)
    ensures s == "" && t.last == "" ==> forall k: nat :: !Names(probe, i, n, k)
  {
    var m := n - 1;
    if s != "" {
      assert LastName(probe, i, n, m);
    } else {
      assert forall k: nat :: Names(probe, i, n, k) ==> Names(probe, i, m, k);
      if t.last != "" {
        var k: nat :| LastName(probe, i, m, k) && probe(k, i).state == t.last;
        assert LastName(probe, i, n, k);
      }
    }
  }

  function StillWaiting(probe: Probe, total: nat, n: nat): set<nat> {
    set i: nat | i < total && FateOf(probe, i, n) == Waiting
  }

  // ---- The outcome ------------------------------------------------------------------------

  datatype PendingVM = PendingVM(vmID: string, lastState: string, progressed: bool)

  datatype DeadlineError = DeadlineError(attempts: nat, ready: nat, total: nat, pending: seq<PendingVM>)

  datatype Outcome =
    | AllDecided              // the error is nil
    | Deadline(err: DeadlineError)
    | Cancelled
    | Watched                 // still polling at the horizon

  /** The VMs still waiting, in the order they were passed. */
  function PendingList(ids: seq<string>, probe: Probe, n: nat, k: nat): seq<PendingVM>
    requires k <= |ids|
  {
    if k == 0 then []
    else
      var i := k - 1;
      var t := TrackOf(probe, i, n);
      PendingList(ids, probe, n, i) +
      if FateOf(probe, i, n) == Waiting then [PendingVM(ids[i], t.last, t.progressed)] else []
  }

  function ReadyCount(probe: Probe, n: nat, k: nat): nat {
    if k == 0 then 0 else ReadyCount(probe, n, k - 1) + (if FateOf(probe, k - 1, n).Ready? then 1 else 0)
  }

  function FailedCount(probe: Probe, n: nat, k: nat): nat {
    if k == 0 then 0 else FailedCount(probe, n, k - 1) + (if FateOf(probe, k - 1, n).Failed? then 1 else 0)
  }

  /** Every VM is in exactly one of the three. */
  lemma {:induction false} NoneLost(ids: seq<string>, probe: Probe, n: nat, k: nat)
    requires k <= |ids|
    ensures ReadyCount(probe, n, k) + FailedCount(probe, n, k) + |PendingList(ids, probe, n, k)| == k
  {
    if k > 0 { NoneLost(ids, probe, n, k - 1); }
  }

  /** A VM on the list of those pending: one nothing has decided about, with what was seen of it. */
  ghost predicate ListedAt(p: PendingVM, ids: seq<string>, probe: Probe, n: nat, i: nat) {
    && i < |ids| && p.vmID == ids[i] && Undecided(probe, i, n)
    && Saw(StateTrack(p.lastState, p.progressed), probe, i, n)
  }

  /** The list, read off the probe: where[m] is the VM at place m, the places ascend, and no VM about which
      nothing has decided is missing. */
  ghost predicate Lists(list: seq<PendingVM>, ids: seq<string>, probe: Probe, n: nat, k: nat, at: seq<nat>) {
    && |at| == |list| && (forall m :: 0 <= m < |list| ==> at[m] < k && ListedAt(list[m], ids, probe, n, at[m]))
    && (forall l, m :: 0 <= l < m < |at| ==> at[l] < at[m])
    && forall i: nat :: i < k && Undecided(probe, i, n) ==> i in at
  }

  lemma ListsNext(list: seq<PendingVM>, p: PendingVM, ids: seq<string>, probe: Probe, n: nat, i: nat, at: seq<nat>)
    requires Lists(list, ids, probe, n, i, at) && ListedAt(p, ids, probe, n, i)
    ensures Lists(list + [p], ids, probe, n, i + 1, at + [i])
  {
    assert (at + [i])[|at|] == i;
  }

  lemma {:induction false} PendingLists(ids: seq<string>, probe: Probe, n: nat, k: nat) returns (at: seq<nat>)
    requires k <= |ids|
    ensures Lists(PendingList(ids, probe, n, k), ids, probe, n, k, at)
  {
    at := [];
    if k > 0 {
      var i := k - 1;
      at := PendingLists(ids, probe, n, i);
      WaitsExactly(probe, i, n);
      if Undecided(probe, i, n) {
        TrackSaw(probe, i, n);
        var t := TrackOf(probe, i, n);
        ListsNext(PendingList(ids, probe, n, i), PendingVM(ids[i], t.last, t.progressed), ids, probe, n, i, at);
        at := at + [i];
      } else {
        NothingAfter(PendingList(ids, probe, n, i));
      }
    }
  }

  /** Ready is counted of each VM whose first decisive answer carries no error. */
  ghost predicate BecameReady(probe: Probe, i: nat, n: nat) {
    exists k: nat :: k < n && DecidedAt(probe, i, k) && probe(k, i).err.None?
  }

  ghost function ReadyOnes(probe: Probe, n: nat, k: nat): set<nat> {
    set i: nat | i < k && BecameReady(probe, i, n)
  }

  lemma {:induction false} ReadyIsCounted(probe: Probe, n: nat, k: nat)
    ensures ReadyCount(probe, n, k) == |ReadyOnes(probe, n, k)|
  {
    if k > 0 {
      ReadyIsCounted(probe, n, k - 1);
      ReadyExactly(probe, k - 1, n);
      ReadyNext(probe, n, k);
    }
  }

  lemma ReadyNext(probe: Probe, n: nat, k: nat)
    requires k > 0
    ensures |ReadyOnes(probe, n, k)| == |ReadyOnes(probe, n, k - 1)| + if BecameReady(probe, k - 1, n) then 1 else 0
  {
    var before := ReadyOnes(probe, n, k - 1);
    assert ReadyOnes(probe, n, k) == if BecameReady(probe, k - 1, n) then before + {k - 1} else before;
  }

  lemma {:induction false} ReadyExactly(probe: Probe, i: nat, n: nat)
    ensures FateOf(probe, i, n) == Ready <==> BecameReady(probe, i, n)
  {
    if BecameReady(probe, i, n) {
      var k: nat :| k < n && DecidedAt(probe, i, k) && probe(k, i).err.None?;
      FateIsFirstDecision(probe, i, n, k);
    }
    if FateOf(probe, i, n) == Ready {
      ReadyExactly(probe, i, n - 1);
      WaitsExactly(probe, i, n - 1);
      if FateOf(probe, i, n - 1) == Waiting {
        assert DecidedAt(probe, i, n - 1);
      } else {
        var k: nat :| k < n - 1 && DecidedAt(probe, i, k) && probe(k, i).err.None?;
      }
    }
  }

  /** Failed is each VM whose first decisive answer carries one. */
  ghost predicate CameToFail(probe: Probe, i: nat, n: nat) {
    exists k: nat :: k < n && DecidedAt(probe, i, k) && probe(k, i).err.Some?
  }

  ghost function FailedOnes(probe: Probe, n: nat, k: nat): set<nat> {
    set i: nat | i < k && CameToFail(probe, i, n)
  }

  lemma {:induction false} FailedIsCounted(probe: Probe, n: nat, k: nat)
    ensures FailedCount(probe, n, k) == |FailedOnes(probe, n, k)|
  {
    if k > 0 {
      FailedIsCounted(probe, n, k - 1);
      FailedExactly(probe, k - 1, n);
      FailedNext(probe, n, k);
    }
  }

  lemma FailedNext(probe: Probe, n: nat, k: nat)
    requires k > 0
    ensures |FailedOnes(probe, n, k)| == |FailedOnes(probe, n, k - 1)| + if CameToFail(probe, k - 1, n) then 1 else 0
  {
    var before := FailedOnes(probe, n, k - 1);
    assert FailedOnes(probe, n, k) == if CameToFail(probe, k - 1, n) then before + {k - 1} else before;
  }

  lemma {:induction false} FailedExactly(probe: Probe, i: nat, n: nat)
    ensures FateOf(probe, i, n).Failed? <==> CameToFail(probe, i, n)
  {
    if CameToFail(probe, i, n) {
      var k: nat :| k < n && DecidedAt(probe, i, k) && probe(k, i).err.Some?;
      FateIsFirstDecision(probe, i, n, k);
    }
    if FateOf(probe, i, n).Failed? {
      FailedExactly(probe, i, n - 1);
      WaitsExactly(probe, i, n - 1);
      if FateOf(probe, i, n - 1) == Waiting {
        assert DecidedAt(probe, i, n - 1);
      } else {
        var k: nat :| k < n - 1 && DecidedAt(probe, i, k) && probe(k, i).err.Some?;
      }
    }
  }

  /** What a deadline reports, read off the probe: the ready are counted, the undecided listed, and with
      those that failed they are all. */
  ghost predicate Reports(e: DeadlineError, ids: seq<string>, probe: Probe, n: nat) {
    && e.attempts == n && e.total == |ids| && e.ready == |ReadyOnes(probe, n, |ids|)|
    && (exists at :: Lists(e.pending, ids, probe, n, |ids|, at))
    && e.ready + |FailedOnes(probe, n, |ids|)| + |e.pending| == e.total
  }

  lemma DeadlineReports(ids: seq<string>, probe: Probe, n: nat)
    ensures var e := DeadlineError(n, ReadyCount(probe, n, |ids|), |ids|, PendingList(ids, probe, n, |ids|));
      Reports(e, ids, probe, n)
  {
    ReadyIsCounted(probe, n, |ids|);
    FailedIsCounted(probe, n, |ids|);
    NoneLost(ids, probe, n, |ids|);
    var at := PendingLists(ids, probe, n, |ids|);
  }

  // ---- One round --------------------------------------------------------------------------

  /** The poller's state agrees with every VM's own history after n rounds. */
  ghost predicate Tracks(ids: seq<string>, probe: Probe, n: nat, results: seq<WaitResult>, pending: set<nat>,
                         seen: seq<StateTrack>)
  {
    && |results| == |seen| == |ids|
    && pending == StillWaiting(probe, |ids|, n)
    && forall i :: 0 <= i < |ids| ==>
        results[i] == ResultOf(ids[i], FateOf(probe, i, n)) && seen[i] == TrackOf(probe, i, n)
  }

  method Start(ids: seq<string>, probe: Probe)
    returns (results: seq<WaitResult>, pending: set<nat>, seen: seq<StateTrack>)
    ensures Tracks(ids, probe, 0, results, pending, seen)
  {
    results, pending, seen := [], {}, [];
    for i := 0 to |ids|
      invariant |results| == |seen| == i && (forall j: nat :: j in pending <==> j < i)
      invariant forall j :: 0 <= j < i ==>
        results[j] == WaitResult(ids[j], false, None) && seen[j] == StateTrack("", false)
    {
      results, seen := results + [WaitResult(ids[i], false, None)], seen + [StateTrack("", false)];
      pending := pending + {i};
    }
  }

  /** The pending VMs are probed once each, in whatever order the map hands them out. */
  method ProbeRound(ids: seq<string>, probe: Probe, round: nat, results: seq<WaitResult>, pending: set<nat>,
                    seen: seq<StateTrack>)
    returns (results': seq<WaitResult>, pending': set<nat>, seen': seq<StateTrack>)
    requires Tracks(ids, probe, round, results, pending, seen)
    ensures Tracks(ids, probe, round + 1, results', pending', seen')
  {
    results', pending', seen' := results, pending, seen;
    var todo := pending;
    while todo != {}
      invariant todo <= pending' <= pending
      invariant |results'| == |seen'| == |ids|
      invariant forall i :: 0 <= i < |ids| ==>
        if i in todo then results'[i] == results[i] && seen'[i] == seen[i] && i in pending'
        else
          && results'[i] == ResultOf(ids[i], FateOf(probe, i, round + 1))
          && seen'[i] == TrackOf(probe, i, round + 1)
          && (i in pending' <==> FateOf(probe, i, round + 1) == Waiting)
      decreases |todo|
    {
      var i :| i in todo;
      var res := probe(round, i);
      seen' := seen'[i := Observe(seen'[i], res.state)];
      if res.err.Some? {
        results' := results'[i := results'[i].(err := res.err)];
        pending' := pending' - {i};
      } else if res.ready {
        results' := results'[i := results'[i].(ready := true)];
        pending' := pending' - {i};
      }
      todo := todo - {i};
    }
  }

  method NewDeadlineError(ids: seq<string>, probe: Probe, results: seq<WaitResult>, pending: set<nat>,
                          seen: seq<StateTrack>, attempts: nat)
    returns (e: DeadlineError)
    requires Tracks(ids, probe, attempts, results, pending, seen)
    ensures e == DeadlineError(attempts, ReadyCount(probe, attempts, |ids|), |ids|,
                               PendingList(ids, probe, attempts, |ids|))
  {
    var ready, list := 0, [];
    for i := 0 to |ids|
      invariant ready == ReadyCount(probe, attempts, i) && list == PendingList(ids, probe, attempts, i)
    {
      if results[i].ready {
        ready := ready + 1;
      } else if i in pending {
        list := list + [PendingVM(ids[i], seen[i].last, seen[i].progressed)];
      }
    }
    e := DeadlineError(attempts, ready, |ids|, list);
  }

  // ---- The poller -------------------------------------------------------------------------

  /** How a run may end: nothing pending is left exactly when every VM has an answer; the deadline comes
      after the last attempt, and before a cancellation of the sleep after it. */
  ghost predicate Accounted(cfg: BackoffConfig, ids: seq<string>, probe: Probe, cancelled: nat -> bool, horizon: nat,
                            outcome: Outcome, rounds: nat, slept: int)
  {
    && (outcome == AllDecided <==> StillWaiting(probe, |ids|, rounds) == {})
    && Unfinished(ids, probe, cancelled, rounds - 1) && (rounds > 0 ==> StillWaiting(probe, |ids|, rounds - 1) != {})
    && (cfg.maxAttempts > 0 ==> rounds <= cfg.maxAttempts)
    && match outcome
       case AllDecided => slept == Slept(cfg, rounds - 1)
       case Deadline(_) => cfg.maxAttempts > 0 && rounds == cfg.maxAttempts && slept == Budget(cfg)
       case Cancelled =>
         rounds > 0 && cancelled(rounds - 1) && slept == Slept(cfg, rounds - 1) && rounds != cfg.maxAttempts
       case Watched =>
         rounds == horizon && slept == Slept(cfg, rounds) && (cfg.maxAttempts > 0 ==> rounds < cfg.maxAttempts)
  }

  /** None of the first n rounds began with nothing pending, and none of the sleeps after them was cancelled. */
  ghost predicate Unfinished(ids: seq<string>, probe: Probe, cancelled: nat -> bool, n: int) {
    && (forall k: nat :: k < n ==> StillWaiting(probe, |ids|, k) != {})
    && (forall k: nat :: k < n ==> !cancelled(k))
  }

  lemma RoundBegan(ids: seq<string>, probe: Probe, cancelled: nat -> bool, n: nat)
    requires Unfinished(ids, probe, cancelled, n) && StillWaiting(probe, |ids|, n) != {}
    ensures Unfinished(ids, probe, cancelled, n) && (!cancelled(n) ==> Unfinished(ids, probe, cancelled, n + 1))
  {
  }

  /** The loop: every VM is given its own fate, whichever way it ends. */
  method Poll(cfg: BackoffConfig, ids: seq<string>, probe: Probe, cancelled: nat -> bool, horizon: nat)
    returns (results: seq<WaitResult>, outcome: Outcome, rounds: nat, slept: int)
    ensures |results| == |ids|
    ensures forall i :: 0 <= i < |ids| ==> results[i] == ResultOf(ids[i], FateOf(probe, i, rounds))
    ensures Accounted(cfg, ids, probe, cancelled, horizon, outcome, rounds, slept)
    ensures outcome.Deadline? ==>
      outcome.err == DeadlineError(rounds, ReadyCount(probe, rounds, |ids|), |ids|,
                                   PendingList(ids, probe, rounds, |ids|))
  {
    var pending, seen;
    results, pending, seen := Start(ids, probe);
    rounds, slept := 0, 0;
    while pending != {}
      invariant Tracks(ids, probe, rounds, results, pending, seen) && rounds <= horizon
      invariant slept == Slept(cfg, rounds) && (rounds > 0 ==> pending != {})
      invariant cfg.maxAttempts > 0 ==> rounds < cfg.maxAttempts
      invariant Unfinished(ids, probe, cancelled, rounds)
      decreases horizon - rounds
    {
      if rounds == horizon { return results, Watched, rounds, slept; }
      RoundBegan(ids, probe, cancelled, rounds);
      results, pending, seen := ProbeRound(ids, probe, rounds, results, pending, seen);
      rounds := rounds + 1;
      if pending == {} { return results, AllDecided, rounds, slept; }
      if cfg.maxAttempts > 0 && rounds >= cfg.maxAttempts {
        var e := NewDeadlineError(ids, probe, results, pending, seen, rounds);
        return results, Deadline(e), rounds, slept;
      }
      if cancelled(rounds - 1) { return results, Cancelled, rounds, slept; }
      var d := NextDelay(cfg, rounds - 1);
      slept := slept + d;
    }
    return results, AllDecided, rounds, slept;
  }

  /** rounds and slept report how many rounds ran and how long was slept. On every return path there is
      a result for every VM, in order, and it says what the VM's own answers say. */
  method WaitUntilReady(cfg: BackoffConfig, ids: seq<string>, probe: Probe, cancelled: nat -> bool, horizon: nat)
    returns (results: seq<WaitResult>, outcome: Outcome, rounds: nat, slept: int)
    ensures |results| == |ids|
    ensures forall i :: 0 <= i < |ids| ==> Tells(results[i], ids[i], probe, i, rounds)
    ensures Accounted(cfg, ids, probe, cancelled, horizon, outcome, rounds, slept)
    ensures outcome.Deadline? ==> Reports(outcome.err, ids, probe, rounds)
  {
    results, outcome, rounds, slept := Poll(cfg, ids, probe, cancelled, horizon);
    ResultsTell(ids, probe, rounds, results);
    DeadlineReports(ids, probe, rounds);
  }

  /** Nothing is pending exactly when every VM has an answer. */
  ghost predicate AllAnswered(ids: seq<string>, probe: Probe, n: nat) {
    forall i :: 0 <= i < |ids| ==> !Undecided(probe, i, n)
  }

  lemma WaitingExactly(ids: seq<string>, probe: Probe, n: nat)
    ensures StillWaiting(probe, |ids|, n) == {} <==> AllAnswered(ids, probe, n)
  {
    var waiting := StillWaiting(probe, |ids|, n);
    forall i: nat ensures i in waiting <==> i < |ids| && Undecided(probe, i, n) { WaitsExactly(probe, i, n); }
  }

  lemma ResultsTell(ids: seq<string>, probe: Probe, n: nat, results: seq<WaitResult>)
    requires |results| == |ids| && forall i :: 0 <= i < |ids| ==> results[i] == ResultOf(ids[i], FateOf(probe, i, n))
    ensures forall i :: 0 <= i < |ids| ==> Tells(results[i], ids[i], probe, i, n)
  {
    forall i | 0 <= i < |ids| ensures Tells(results[i], ids[i], probe, i, n) { ResultTells(ids[i], probe, i, n); }
  }

  /** At the deadline of a budgeted wait no VM is lost, and the time slept covers the budget. */
  method WaitForBudget(budget: int, ids: seq<string>, probe: Probe, cancelled: nat -> bool, horizon: nat)
    returns (results: seq<WaitResult>, outcome: Outcome, slept: int)
    ensures outcome.Deadline? ==>
      && slept >= budget
      && Reports(outcome.err, ids, probe, outcome.err.attempts)
  {
    var cfg := WaitBackoffFor(budget);
    var rounds;
    results, outcome, rounds, slept := WaitUntilReady(cfg, ids, probe, cancelled, horizon);
  }
}
