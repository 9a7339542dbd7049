/** Deleting VMs and polling until the provider confirms that each is gone.

    As in the readiness poller, the probe and the delete call are arbitrary functions of the round and the
    VM. Every call made on the provider is logged, so what was asked of it is stated beside the results.
 */
module ConfirmDestroy {
  import opened Backoff
  import opened Seqs
  import opened Wrappers
  import Wait = WaitPoller

  type Error = Option<string>
  type StateTrack = Wait.StateTrack

  datatype GoneResult = GoneResult(gone: bool, err: Error, state: string, deleteFailed: bool)

  type Probe = (nat, nat) -> GoneResult
  type Delete = (nat, nat) -> Error

  datatype DestroyResult = DestroyResult(vmID: string, gone: bool, err: Error)

  // ---- What becomes of one VM -------------------------------------------------------------

  datatype Fate = Present | Gone | Failed(err: string)

  /** The first decisive answer in the first n rounds. */
  function FateOf(probe: Probe, i: nat, n: nat): Fate {
    if n == 0 then Present
    else
      var before := FateOf(probe, i, n - 1);
      if before != Present then before
      else
        var res := probe(n - 1, i);
        if res.gone then Gone else if res.err.Some? then Failed(res.err.value) else Present
  }

  function TrackOf(probe: Probe, i: nat, n: nat): StateTrack {
    if n == 0 then Wait.StateTrack("", false)
    else if FateOf(probe, i, n - 1) != Present then TrackOf(probe, i, n - 1)
    else Wait.Observe(TrackOf(probe, i, n - 1), probe(n - 1, i).state)
  }

  /** Whether the last answer the VM gave said that its deletion failed. */
  function RejectedOf(probe: Probe, i: nat, n: nat): bool {
    if n == 0 then false
    else if FateOf(probe, i, n - 1) != Present then RejectedOf(probe, i, n - 1)
    else probe(n - 1, i).deleteFailed
  }

  /** Whether round n leaves the VM to be deleted once more. */
  predicate Refused(probe: Probe, i: nat, n: nat) {
    n > 0 && FateOf(probe, i, n) == Present && probe(n - 1, i).deleteFailed
  }

  /** What the last delete call said, once n rounds were slept through. */
  function DeleteErrorOf(probe: Probe, del: Delete, i: nat, n: nat): Error {
    if n == 0 then del(0, i)
    else if Refused(probe, i, n) then del(n, i)
    else DeleteErrorOf(probe, del, i, n - 1)
  }

  // ---- What the provider is asked -----------------------------------------------------------

  datatype Kind = Deleted | Probed

  datatype Call = Call(vm: nat, kind: Kind)

  function Then(h: seq<Kind>, cond: bool, k: Kind): seq<Kind> {
    if cond then h + [k] else h
  }

  /** The calls about one VM, in order. */
  function About(log: seq<Call>, i: nat): seq<Kind> {
    if log == [] then []
    else
      var last := log[|log| - 1];
      Then(About(log[..|log| - 1], i), last.vm == i, last.kind)
  }

  lemma AboutNext(log: seq<Call>, c: Call, i: nat)
    ensures About(log + [c], i) == Then(About(log, i), c.vm == i, c.kind)
  {
    assert (log + [c])[..|log|] == log;
  }

  /** The calls a VM sees when n rounds have run and the last of them was slept through or not. */
  function History(probe: Probe, i: nat, n: nat, slept: bool): seq<Kind> {
    if n == 0 then [Deleted]
    else
      var asked := Then(History(probe, i, n - 1, true), FateOf(probe, i, n - 1) == Present, Probed);
      Then(asked, slept && Refused(probe, i, n), Deleted)
  }

  function Deletes(h: seq<Kind>): nat {
    if h == [] then 0 else Deletes(h[..|h| - 1]) + if h[|h| - 1] == Deleted then 1 else 0
  }

  lemma DeletesNext(h: seq<Kind>, cond: bool, k: Kind)
    ensures Deletes(Then(h, cond, k)) == Deletes(h) + if cond && k == Deleted then 1 else 0
  {
    assert (h + [k])[..|h|] == h;
  }

  /** The rounds among the first n that end in the VM being refused. */
  function RefusedRounds(probe: Probe, i: nat, n: nat): nat {
    if n == 0 then 0 else RefusedRounds(probe, i, n - 1) + if Refused(probe, i, n) then 1 else 0
  }

  /** One delete up front and one per slept-through round that reported the deletion failed. */
  lemma {:induction false} DeletesAccountedFor(probe: Probe, i: nat, n: nat)
    ensures Deletes(History(probe, i, n, true)) == 1 + RefusedRounds(probe, i, n)
    ensures n > 0 ==> Deletes(History(probe, i, n, false)) == 1 + RefusedRounds(probe, i, n - 1)
    ensures |History(probe, i, n, true)| > 0 && History(probe, i, n, true)[0] == Deleted
  {
    if n > 0 {
      DeletesAccountedFor(probe, i, n - 1);
      var before := History(probe, i, n - 1, true);
      DeletesNext(before, FateOf(probe, i, n - 1) == Present, Probed);
      DeletesNext(Then(before, FateOf(probe, i, n - 1) == Present, Probed), Refused(probe, i, n), Deleted);
    }
  }

  /** What round k adds to the calls about one VM: a probe while nothing has decided, and after it a delete
      when the round is slept through and left the deletion failed. */
  ghost function RoundCalls(probe: Probe, i: nat, k: nat, slept: bool): seq<Kind> {
    (if Undecided(probe, i, k) then [Probed] else []) + (if slept && Again(probe, i, k + 1) then [Deleted] else [])
  }

  lemma HistoryByRounds(probe: Probe, i: nat, n: nat, slept: bool)
    ensures n == 0 ==> History(probe, i, n, slept) == [Deleted]
    ensures n > 0 ==> History(probe, i, n, slept) == History(probe, i, n - 1, true) + RoundCalls(probe, i, n - 1, slept)
  {
    if n > 0 {
      PresentExactly(probe, i, n - 1);
      RefusedExactly(probe, i, n);
    }
  }

  lemma {:induction false} DecisionStands(probe: Probe, i: nat, n: nat, m: nat)
    requires n <= m && FateOf(probe, i, n) != Present
    ensures FateOf(probe, i, m) == FateOf(probe, i, n)
  {
    if n < m { DecisionStands(probe, i, n, m - 1); }
  }

  /** A closed VM is never asked about again: its calls end with the probe that closed it. */
  lemma {:induction false} ClosedIsLeftAlone(probe: Probe, i: nat, n: nat, m: nat, slept: bool)
    requires 0 < n <= m && FateOf(probe, i, n) != Present && FateOf(probe, i, n - 1) == Present
    ensures History(probe, i, m, slept) == History(probe, i, n - 1, true) + [Probed]
  {
    DecisionStands(probe, i, n, m);
    if n < m {
      DecisionStands(probe, i, n, m - 1);
      ClosedIsLeftAlone(probe, i, n, m - 1, true);
    }
  }

  /** A VM counts as gone only through an answer that said so. */
  lemma {:induction false} GoneWasReported(probe: Probe, i: nat, n: nat) returns (k: nat)
    requires FateOf(probe, i, n) == Gone
    ensures k < n && probe(k, i).gone && FateOf(probe, i, k) == Present
  {
    if FateOf(probe, i, n - 1) == Present { return n - 1; }
    k := GoneWasReported(probe, i, n - 1);
  }

  // ---- The outcome ------------------------------------------------------------------------

  datatype PresentVM = PresentVM(vmID: string, lastState: string, deleteRejected: bool)

  datatype DeadlineError = DeadlineError(attempts: nat, gone: nat, total: nat, pending: seq<PresentVM>)

  datatype Outcome = AllDecided | Deadline(err: DeadlineError) | Cancelled | Watched

  /** A VM that never disappeared reports its last delete error. */
  function ResultOf(id: string, fate: Fate, last: Error): DestroyResult {
    DestroyResult(id, fate.Gone?, match fate case Gone => None case Failed(e) => Some(e) case Present => last)
  }

  function PresentList(ids: seq<string>, probe: Probe, n: nat, k: nat): seq<PresentVM>
    requires k <= |ids|
  {
    if k == 0 then []
    else
      var i := k - 1;
      PresentList(ids, probe, n, i) +
      if FateOf(probe, i, n) == Present
      then [PresentVM(ids[i], TrackOf(probe, i, n).last, RejectedOf(probe, i, n))] else []
  }

  function GoneCount(probe: Probe, n: nat, k: nat): nat {
    if k == 0 then 0 else GoneCount(probe, n, k - 1) + (if FateOf(probe, k - 1, n).Gone? then 1 else 0)
  }

  function FailedCount(probe: Probe, n: nat, k: nat): nat {
    if k == 0 then 0 else FailedCount(probe, n, k - 1) + (if FateOf(probe, k - 1, n).Failed? then 1 else 0)
  }

  lemma {:induction false} NoneLost(ids: seq<string>, probe: Probe, n: nat, k: nat)
    requires k <= |ids|
    ensures GoneCount(probe, n, k) + FailedCount(probe, n, k) + |PresentList(ids, probe, n, k)| == k
  {
    if k > 0 { NoneLost(ids, probe, n, k - 1); }
  }

  function StillPresent(probe: Probe, total: nat, n: nat): set<nat> {
    set i: nat | i < total && FateOf(probe, i, n) == Present
  }

  // ---- What is reported, read off the probe ---------------------------------------------------

  predicate Decides(res: GoneResult) {
    res.gone || res.err.Some?
  }

  /** Round k is the first whose answer decides. */
  ghost predicate DecidedAt(probe: Probe, i: nat, k: nat) {
    Decides(probe(k, i)) && Undecided(probe, i, k)
  }

  ghost predicate Undecided(probe: Probe, i: nat, n: nat) {
    forall j: nat :: j < n ==> !Decides(probe(j, i))
  }

  /** The m-th round found the VM still there and its deletion failed. */
  ghost predicate Again(probe: Probe, i: nat, m: nat) {
    m > 0 && Undecided(probe, i, m) && probe(m - 1, i).deleteFailed
  }

  /** Of the deletes in the first n rounds slept through, the last came after round m; 0 is the one before
      the first round. */
  ghost predicate LastDelete(probe: Probe, i: nat, n: nat, m: nat) {
    m <= n && (m == 0 || Again(probe, i, m)) && forall l: nat :: m < l <= n ==> !Again(probe, i, l)
  }

  /** Round n itself deletes nothing before it is slept through. */
  ghost predicate LastDeleteIn(probe: Probe, i: nat, n: nat, m: nat) {
    n > 0 && LastDelete(probe, i, n - 1, m)
  }

  /** The result of a VM when n rounds have run: gone or failed as its first decisive answer says, gone
      outranking an error, and the error of its last delete while none has decided. */
  ghost predicate Tells(r: DestroyResult, id: string, probe: Probe, del: Delete, i: nat, n: nat)
    requires n > 0
  {
    && r.vmID == id
    && (forall k: nat :: k < n && DecidedAt(probe, i, k) ==>
          (r.gone <==> probe(k, i).gone) && r.err == if probe(k, i).gone then None else probe(k, i).err)
    && (Undecided(probe, i, n) ==>
          !r.gone && forall m: nat :: LastDeleteIn(probe, i, n, m) ==> r.err == del(m, i))
  }

  lemma {:induction false} PresentExactly(probe: Probe, i: nat, n: nat)
    ensures FateOf(probe, i, n) == Present <==> Undecided(probe, i, n)
  {
    if n > 0 {
      PresentExactly(probe, i, n - 1);
      assert Undecided(probe, i, n) <==> Undecided(probe, i, n - 1) && !Decides(probe(n - 1, i));
    }
  }

  lemma FateIsFirstDecision(probe: Probe, i: nat, n: nat, k: nat)
    requires k < n && DecidedAt(probe, i, k)
    ensures FateOf(probe, i, n) == if probe(k, i).gone then Gone else Failed(probe(k, i).err.value)
  {
    PresentExactly(probe, i, k);
    DecisionStands(probe, i, k + 1, n);
  }

  lemma RefusedExactly(probe: Probe, i: nat, m: nat)
    ensures Refused(probe, i, m) <==> Again(probe, i, m)
  {
    PresentExactly(probe, i, m);
  }

  /** There is one last delete, and its error is the one kept. */
  lemma {:induction false} LastDeleteKept(probe: Probe, del: Delete, i: nat, n: nat) returns (m: nat)
    ensures LastDelete(probe, i, n, m) && DeleteErrorOf(probe, del, i, n) == del(m, i)
  {
    RefusedExactly(probe, i, n);
    if n == 0 || Again(probe, i, n) { m := n; } else { m := LastDeleteKept(probe, del, i, n - 1); }
  }

  lemma ResultTells(id: string, probe: Probe, del: Delete, i: nat, n: nat)
    requires n > 0
    ensures Tells(ResultOf(id, FateOf(probe, i, n), DeleteErrorOf(probe, del, i, n - 1)), id, probe, del, i, n)
  {
    forall k: nat | k < n && DecidedAt(probe, i, k)
      ensures FateOf(probe, i, n) == if probe(k, i).gone then Gone else Failed(probe(k, i).err.value)
    {
      FateIsFirstDecision(probe, i, n, k);
    }
    PresentExactly(probe, i, n);
    LastErrorKept(probe, del, i, n, DeleteErrorOf(probe, del, i, n - 1));
  }

  lemma LastErrorKept(probe: Probe, del: Delete, i: nat, n: nat, e: Error)
    requires n > 0 && e == DeleteErrorOf(probe, del, i, n - 1)
    ensures forall m: nat :: LastDeleteIn(probe, i, n, m) ==> e == del(m, i)
  {
    var last := LastDeleteKept(probe, del, i, n - 1);
    forall m: nat | LastDeleteIn(probe, i, n, m) ensures e == del(m, i) { OneLastDelete(probe, i, n - 1, m, last); }
  }

  lemma OneLastDelete(probe: Probe, i: nat, n: nat, l: nat, m: nat)
    requires LastDelete(probe, i, n, l) && LastDelete(probe, i, n, m)
    ensures l == m
  {
    assert l < m ==> !Again(probe, i, m);
    assert m < l ==> !Again(probe, i, l);
  }

  /** The states the probe names, as a poll for readiness would see them. */
  function States(probe: Probe): Wait.Probe {
    (k: nat, i: nat) => Wait.ProbeResult(false, None, probe(k, i).state)
  }

  lemma {:induction false} SameTrack(probe: Probe, i: nat, n: nat)
    requires Undecided(probe, i, n)
    ensures TrackOf(probe, i, n) == Wait.TrackOf(States(probe), i, n) && Wait.Undecided(States(probe), i, n)
  {
    Wait.WaitsExactly(States(probe), i, n);
    if n > 0 {
      SameTrack(probe, i, n - 1);
      PresentExactly(probe, i, n - 1);
      Wait.WaitsExactly(States(probe), i, n - 1);
    }
  }

  /** A VM on the list: nothing has decided about it; the last state it named, and whether its last answer
      said that the deletion failed. */
  ghost predicate ListedAt(p: PresentVM, ids: seq<string>, probe: Probe, n: nat, i: nat) {
    && i < |ids| && p.vmID == ids[i] && Undecided(probe, i, n)
    && (p.deleteRejected <==> Again(probe, i, n))
    && exists moved :: Wait.Saw(Wait.StateTrack(p.lastState, moved), States(probe), i, n)
  }

  /** The list: the places ascend, and no VM about which nothing has decided is missing. */
  ghost predicate Lists(list: seq<PresentVM>, ids: seq<string>, probe: Probe, n: nat, k: nat, at: seq<nat>) {
    && |at| == |list| && (forall m :: 0 <= m < |list| ==> at[m] < k && ListedAt(list[m], ids, probe, n, at[m]))
    && (forall l, m :: 0 <= l < m < |at| ==> at[l] < at[m])
    && forall i: nat :: i < k && Undecided(probe, i, n) ==> i in at
  }

  lemma PresentIsListed(ids: seq<string>, probe: Probe, n: nat, i: nat)
    requires i < |ids| && Undecided(probe, i, n)
    ensures ListedAt(PresentVM(ids[i], TrackOf(probe, i, n).last, RejectedOf(probe, i, n)), ids, probe, n, i)
  {
    SameTrack(probe, i, n);
    Wait.TrackSaw(States(probe), i, n);
    var t := TrackOf(probe, i, n);
    assert t == Wait.StateTrack(t.last, t.progressed);
    if n > 0 { PresentExactly(probe, i, n - 1); }
  }

  lemma ListsNext(list: seq<PresentVM>, p: PresentVM, ids: seq<string>, probe: Probe, n: nat, i: nat, at: seq<nat>)
    requires Lists(list, ids, probe, n, i, at) && ListedAt(p, ids, probe, n, i)
    ensures Lists(list + [p], ids, probe, n, i + 1, at + [i])
  {
    assert (at + [i])[|at|] == i;
  }

  lemma {:induction false} PresentLists(ids: seq<string>, probe: Probe, n: nat, k: nat) returns (at: seq<nat>)
    requires k <= |ids|
    ensures Lists(PresentList(ids, probe, n, k), ids, probe, n, k, at)
  {
    at := [];
    if k > 0 {
      var i := k - 1;
      at := PresentLists(ids, probe, n, i);
      PresentExactly(probe, i, n);
      if Undecided(probe, i, n) {
        PresentIsListed(ids, probe, n, i);
        var p := PresentVM(ids[i], TrackOf(probe, i, n).last, RejectedOf(probe, i, n));
        ListsNext(PresentList(ids, probe, n, i), p, ids, probe, n, i, at);
        at := at + [i];
      } else {
        NothingAfter(PresentList(ids, probe, n, i));
      }
    }
  }

  ghost predicate BecameGone(probe: Probe, i: nat, n: nat) {
    exists k: nat :: k < n && DecidedAt(probe, i, k) && probe(k, i).gone
  }

  ghost function GoneOnes(probe: Probe, n: nat, k: nat): set<nat> {
    set i: nat | i < k && BecameGone(probe, i, n)
  }

  lemma {:induction false} GoneIsCounted(probe: Probe, n: nat, k: nat)
    ensures GoneCount(probe, n, k) == |GoneOnes(probe, n, k)|
  {
    if k > 0 {
      GoneIsCounted(probe, n, k - 1);
      GoneExactly(probe, k - 1, n);
      GoneNext(probe, n, k);
    }
  }

  lemma GoneNext(probe: Probe, n: nat, k: nat)
    requires k > 0
    ensures |GoneOnes(probe, n, k)| == |GoneOnes(probe, n, k - 1)| + if BecameGone(probe, k - 1, n) then 1 else 0
  {
    var before := GoneOnes(probe, n, k - 1);
    assert GoneOnes(probe, n, k) == if BecameGone(probe, k - 1, n) then before + {k - 1} else before;
  }

  lemma GoneExactly(probe: Probe, i: nat, n: nat)
    ensures FateOf(probe, i, n) == Gone <==> BecameGone(probe, i, n)
  {
    if BecameGone(probe, i, n) {
      var k: nat :| k < n && DecidedAt(probe, i, k) && probe(k, i).gone;
      FateIsFirstDecision(probe, i, n, k);
    }
    if FateOf(probe, i, n) == Gone {
      var k := GoneWasReported(probe, i, n);
      PresentExactly(probe, i, k);
      assert DecidedAt(probe, i, k);
    }
  }

  /** What a deadline reports, read off the probe. */
  ghost predicate Reports(e: DeadlineError, ids: seq<string>, probe: Probe, n: nat) {
    && e.attempts == n && e.total == |ids| && e.gone == |GoneOnes(probe, n, |ids|)|
    && exists at :: Lists(e.pending, ids, probe, n, |ids|, at)
  }

  lemma DeadlineReports(ids: seq<string>, probe: Probe, n: nat)
    ensures var e := DeadlineError(n, GoneCount(probe, n, |ids|), |ids|, PresentList(ids, probe, n, |ids|));
      Reports(e, ids, probe, n)
  {
    GoneIsCounted(probe, n, |ids|);
    var at := PresentLists(ids, probe, n, |ids|);
  }

  // ---- The steps of the run -----------------------------------------------------------------

  /** What the poller keeps about one VM, at one index of its parallel slices. */
  datatype Vm = Vm(result: DestroyResult, seen: StateTrack, rejected: bool)

  function VmAfter(id: string, probe: Probe, i: nat, n: nat): Vm {
    Vm(ResultOf(id, FateOf(probe, i, n), None), TrackOf(probe, i, n), RejectedOf(probe, i, n))
  }

  ghost predicate Tracks(ids: seq<string>, probe: Probe, n: nat, vms: seq<Vm>, pending: set<nat>) {
    && |vms| == |ids|
    && pending == StillPresent(probe, |ids|, n)
    && forall i :: 0 <= i < |ids| ==> vms[i] == VmAfter(ids[i], probe, i, n)
  }

  ghost predicate Errors(ids: seq<string>, probe: Probe, del: Delete, n: nat, delErr: seq<Error>) {
    |delErr| == |ids| && forall i :: 0 <= i < |ids| ==> delErr[i] == DeleteErrorOf(probe, del, i, n)
  }

  ghost predicate Asked(total: nat, probe: Probe, n: nat, slept: bool, log: seq<Call>) {
    forall i: nat :: i < total ==> About(log, i) == History(probe, i, n, slept)
  }

  /** One call about each VM of a set, and none about any other. */
  ghost predicate OneEach(calls: seq<Call>, kind: Kind, vms: set<nat>) {
    forall i: nat :: About(calls, i) == if i in vms then [kind] else []
  }

  method Start(ids: seq<string>, probe: Probe) returns (vms: seq<Vm>, pending: set<nat>)
    ensures Tracks(ids, probe, 0, vms, pending)
  {
    vms, pending := [], {};
    for i := 0 to |ids|
      invariant |vms| == i && (forall j: nat :: j in pending <==> j < i)
      invariant forall j :: 0 <= j < i ==> vms[j] == VmAfter(ids[j], probe, j, 0)
    {
      vms := vms + [Vm(DestroyResult(ids[i], false, None), Wait.StateTrack("", false), false)];
      pending := pending + {i};
    }
  }

  method DeleteAll(ids: seq<string>, probe: Probe, del: Delete) returns (delErr: seq<Error>, log: seq<Call>)
    ensures Errors(ids, probe, del, 0, delErr) && Asked(|ids|, probe, 0, true, log)
  {
    delErr, log := [], [];
    for i := 0 to |ids|
      invariant |delErr| == i && (forall j :: 0 <= j < i ==> delErr[j] == del(0, j))
      invariant forall j: nat :: About(log, j) == if j < i then [Deleted] else []
    {
      delErr := delErr + [del(0, i)];
      forall j: nat ensures About(log + [Call(i, Deleted)], j) == if j < i + 1 then [Deleted] else [] {
        AboutNext(log, Call(i, Deleted), j);
      }
      log := log + [Call(i, Deleted)];
    }
  }

  /** One VM is probed. */
  method ProbeOne(probe: Probe, round: nat, i: nat, vm: Vm) returns (vm': Vm, open: bool, again: bool)
    requires FateOf(probe, i, round) == Present && vm == VmAfter(vm.result.vmID, probe, i, round)
    ensures vm' == VmAfter(vm.result.vmID, probe, i, round + 1)
    ensures open <==> FateOf(probe, i, round + 1) == Present
    ensures again <==> Refused(probe, i, round + 1)
  {
    var res := probe(round, i);
    vm' := Vm(vm.result, Wait.Observe(vm.seen, res.state), res.deleteFailed);
    open, again := true, false;
    if res.gone {
      vm', open := vm'.(result := vm.result.(gone := true, err := None)), false;
    } else if res.err.Some? {
      vm', open := vm'.(result := vm.result.(err := res.err)), false;
    } else if res.deleteFailed {
      again := true;
    }
  }

  /** Inside a round, with the VMs of `todo` still to be probed. */
  ghost predicate Midway(ids: seq<string>, probe: Probe, round: nat, vms: seq<Vm>, pending: set<nat>, todo: set<nat>) {
    && |vms| == |ids| && todo <= pending
    && (forall i :: 0 <= i < |ids| ==> vms[i] == VmAfter(ids[i], probe, i, if i in todo then round else round + 1))
    && (forall i: nat :: i in pending <==>
      i < |ids| && FateOf(probe, i, if i in todo then round else round + 1) == Present)
  }

  /** The VMs to delete again: those probed, still present, whose answer said the deletion failed. */
  ghost predicate ReissuesBut(probe: Probe, total: nat, n: nat, reissue: seq<nat>, todo: set<nat>) {
    && (forall i: nat :: i in reissue <==> i < total && i !in todo && Refused(probe, i, n))
    && (forall a, b :: 0 <= a < b < |reissue| ==> reissue[a] != reissue[b])
  }

  method ProbeNext(ids: seq<string>, probe: Probe, round: nat, vms: seq<Vm>, pending: set<nat>, todo: set<nat>, i: nat)
    returns (vms': seq<Vm>, pending': set<nat>, again: bool)
    requires Midway(ids, probe, round, vms, pending, todo) && i in todo
    ensures Midway(ids, probe, round, vms', pending', todo - {i})
    ensures i < |ids| && (again <==> Refused(probe, i, round + 1))
  {
    var vm, open;
    vm, open, again := ProbeOne(probe, round, i, vms[i]);
    vms', pending' := vms[i := vm], pending;
    if !open { pending' := pending - {i}; }
  }

  lemma ReissueNext(probe: Probe, total: nat, n: nat, reissue: seq<nat>, todo: set<nat>, i: nat)
    requires ReissuesBut(probe, total, n, reissue, todo) && i in todo && i < total
    ensures Refused(probe, i, n) ==> ReissuesBut(probe, total, n, reissue + [i], todo - {i})
    ensures !Refused(probe, i, n) ==> ReissuesBut(probe, total, n, reissue, todo - {i})
  {
    assert i !in reissue;
  }

  ghost predicate InRound(ids: seq<string>, probe: Probe, round: nat, start: set<nat>, vms: seq<Vm>, pending: set<nat>,
                          reissue: seq<nat>, calls: seq<Call>, todo: set<nat>)
  {
    && todo <= start && Midway(ids, probe, round, vms, pending, todo)
    && ReissuesBut(probe, |ids|, round + 1, reissue, todo) && OneEach(calls, Probed, start - todo)
  }

  lemma RoundStarts(ids: seq<string>, probe: Probe, round: nat, vms: seq<Vm>, pending: set<nat>)
    requires Tracks(ids, probe, round, vms, pending)
    ensures InRound(ids, probe, round, pending, vms, pending, [], [], pending)
  {
  }

  lemma RoundEnds(ids: seq<string>, probe: Probe, round: nat, start: set<nat>, vms: seq<Vm>, pending: set<nat>,
                  reissue: seq<nat>, calls: seq<Call>)
    requires InRound(ids, probe, round, start, vms, pending, reissue, calls, {})
    ensures Tracks(ids, probe, round + 1, vms, pending)
    ensures ReissuesBut(probe, |ids|, round + 1, reissue, {}) && OneEach(calls, Probed, start)
  {
    assert start - {} == start;
  }

  lemma RoundGoesOn(ids: seq<string>, probe: Probe, round: nat, start: set<nat>, pending: set<nat>, reissue: seq<nat>,
                    calls: seq<Call>, todo: set<nat>, i: nat, vms: seq<Vm>, reissue': seq<nat>)
    requires todo <= start && i in todo && Midway(ids, probe, round, vms, pending, todo - {i})
    requires ReissuesBut(probe, |ids|, round + 1, reissue, todo) && OneEach(calls, Probed, start - todo)
    requires i < |ids| && reissue' == if Refused(probe, i, round + 1) then reissue + [i] else reissue
    ensures InRound(ids, probe, round, start, vms, pending, reissue', calls + [Call(i, Probed)], todo - {i})
  {
    ReissueNext(probe, |ids|, round + 1, reissue, todo, i);
    NextCall(calls, Call(i, Probed), start - todo);
    assert start - (todo - {i}) == start - todo + {i};
  }

  /** Every pending VM is probed once, in whatever order the map hands them out. */
  method ProbeRound(ids: seq<string>, probe: Probe, round: nat, vms: seq<Vm>, pending: set<nat>)
    returns (vms': seq<Vm>, pending': set<nat>, reissue: seq<nat>, calls: seq<Call>)
    requires Tracks(ids, probe, round, vms, pending)
    ensures Tracks(ids, probe, round + 1, vms', pending')
    ensures ReissuesBut(probe, |ids|, round + 1, reissue, {}) && OneEach(calls, Probed, pending)
  {
    vms', pending', reissue, calls := vms, pending, [], [];
    var todo := pending;
    RoundStarts(ids, probe, round, vms, pending);
    while todo != {}
      invariant InRound(ids, probe, round, pending, vms', pending', reissue, calls, todo)
      decreases |todo|
    {
      var i :| i in todo;
      var again;
      ghost var before := reissue;
      vms', pending', again := ProbeNext(ids, probe, round, vms', pending', todo, i);
      if again { reissue := reissue + [i]; }
      RoundGoesOn(ids, probe, round, pending, pending', before, calls, todo, i, vms', reissue);
      calls, todo := calls + [Call(i, Probed)], todo - {i};
    }
    RoundEnds(ids, probe, round, pending, vms', pending', reissue, calls);
  }

  lemma NextCall(calls: seq<Call>, c: Call, done: set<nat>)
    requires c.vm !in done && OneEach(calls, c.kind, done)
    ensures OneEach(calls + [c], c.kind, done + {c.vm})
  {
    forall j: nat ensures About(calls + [c], j) == if j in done + {c.vm} then [c.kind] else [] {
      AboutNext(calls, c, j);
    }
  }

  lemma {:induction false} AboutJoin(log: seq<Call>, calls: seq<Call>, i: nat)
    ensures About(log + calls, i) == About(log, i) + About(calls, i)
    decreases |calls|
  {
    if calls == [] {
      assert log + calls == log;
    } else {
      var most := calls[..|calls| - 1];
      assert log + calls == (log + most) + [calls[|calls| - 1]];
      AboutNext(log + most, calls[|calls| - 1], i);
      AboutJoin(log, most, i);
    }
  }

  method Reissue(ids: seq<string>, probe: Probe, del: Delete, n: nat, delErr: seq<Error>, reissue: seq<nat>)
    returns (delErr': seq<Error>, calls: seq<Call>)
    requires n > 0 && Errors(ids, probe, del, n - 1, delErr) && ReissuesBut(probe, |ids|, n, reissue, {})
    ensures Errors(ids, probe, del, n, delErr')
    ensures OneEach(calls, Deleted, set i | i in reissue)
  {
    delErr', calls := delErr, [];
    ghost var done: set<nat> := {};
    for k := 0 to |reissue|
      invariant done == FirstOf(reissue, k) && Redone(del, n, delErr, delErr', done) && |delErr| == |ids|
      invariant OneEach(calls, Deleted, done)
    {
      var i := reissue[k];
      FirstNext(reissue, k);
      assert i in reissue;
      delErr' := delErr'[i := del(n, i)];
      NextCall(calls, Call(i, Deleted), done);
      calls := calls + [Call(i, Deleted)];
      done := done + {i};
    }
    assert done == set i | i in reissue;
  }

  ghost function FirstOf(reissue: seq<nat>, k: nat): set<nat>
    requires k <= |reissue|
  {
    set i | i in reissue[..k]
  }

  lemma FirstNext(reissue: seq<nat>, k: nat)
    requires k < |reissue| && forall a, b :: 0 <= a < b < |reissue| ==> reissue[a] != reissue[b]
    ensures FirstOf(reissue, k + 1) == FirstOf(reissue, k) + {reissue[k]} && reissue[k] !in FirstOf(reissue, k)
  {
    assert reissue[..k + 1] == reissue[..k] + [reissue[k]];
  }

  /** The delete errors of the VMs in `done` are those of the new call. */
  ghost predicate Redone(del: Delete, n: nat, was: seq<Error>, now: seq<Error>, done: set<nat>) {
    |now| == |was| && forall i: nat :: i < |was| ==> now[i] == if i in done then del(n, i) else was[i]
  }

  /** The VMs still pending are given the error of their last delete. */
  method CloseOut(ids: seq<string>, probe: Probe, del: Delete, n: nat, vms: seq<Vm>, pending: set<nat>,
                  delErr: seq<Error>)
    returns (results: seq<DestroyResult>)
    requires n > 0 && Tracks(ids, probe, n, vms, pending) && Errors(ids, probe, del, n - 1, delErr)
    ensures Reported(ids, probe, del, n, results)
  {
    results := Results(vms);
    var todo := pending;
    while todo != {}
      invariant todo <= pending && |results| == |ids|
      invariant forall i :: 0 <= i < |ids| ==>
        results[i] == ResultOf(ids[i], FateOf(probe, i, n),
                               if i in todo then None else DeleteErrorOf(probe, del, i, n - 1))
      decreases |todo|
    {
      var i :| i in todo;
      if results[i].err == None { results := results[i := results[i].(err := delErr[i])]; }
      todo := todo - {i};
    }
  }

  function Results(vms: seq<Vm>): (r: seq<DestroyResult>)
    ensures |r| == |vms| && forall i :: 0 <= i < |vms| ==> r[i] == vms[i].result
  {
    seq(|vms|, i requires 0 <= i < |vms| => vms[i].result)
  }

  /** Every VM has its result, in the order passed, and it is the VM's own fate. */
  ghost predicate Reported(ids: seq<string>, probe: Probe, del: Delete, n: nat, results: seq<DestroyResult>)
    requires n > 0
  {
    && |results| == |ids|
    && forall i :: 0 <= i < |ids| ==>
        results[i] == ResultOf(ids[i], FateOf(probe, i, n), DeleteErrorOf(probe, del, i, n - 1))
  }

  method NewDeadlineError(ids: seq<string>, probe: Probe, vms: seq<Vm>, pending: set<nat>, attempts: nat)
    returns (e: DeadlineError)
    requires Tracks(ids, probe, attempts, vms, pending)
    ensures e == DeadlineError(attempts, GoneCount(probe, attempts, |ids|), |ids|,
                               PresentList(ids, probe, attempts, |ids|))
  {
    var gone, list := 0, [];
    for i := 0 to |ids|
      invariant gone == GoneCount(probe, attempts, i) && list == PresentList(ids, probe, attempts, i)
    {
      if vms[i].result.gone {
        gone := gone + 1;
      } else if i in pending {
        list := list + [PresentVM(ids[i], vms[i].seen.last, vms[i].rejected)];
      }
    }
    e := DeadlineError(attempts, gone, |ids|, list);
  }

  /** A round probes exactly the VMs still present. */
  lemma HistoryGrows(total: nat, probe: Probe, n: nat, log: seq<Call>, calls: seq<Call>)
    requires Asked(total, probe, n, true, log) && OneEach(calls, Probed, StillPresent(probe, total, n))
    ensures Asked(total, probe, n + 1, false, log + calls)
  {
    forall i: nat | i < total ensures About(log + calls, i) == History(probe, i, n + 1, false) {
      AboutJoin(log, calls, i);
    }
  }

  lemma HistorySlept(total: nat, probe: Probe, n: nat, log: seq<Call>, calls: seq<Call>, reissue: seq<nat>)
    requires Asked(total, probe, n, false, log) && ReissuesBut(probe, total, n, reissue, {}) && n > 0
    requires OneEach(calls, Deleted, set i | i in reissue)
    ensures Asked(total, probe, n, true, log + calls)
  {
    forall i: nat | i < total ensures About(log + calls, i) == History(probe, i, n, true) {
      AboutJoin(log, calls, i);
      assert i in reissue <==> Refused(probe, i, n);
    }
  }

  // ---- The run ------------------------------------------------------------------------------

  /** An outcome is honest about the rounds run and the time slept. */
  ghost predicate Accounted(cfg: BackoffConfig, ids: seq<string>, probe: Probe, cancelled: nat -> bool, horizon: nat,
                            outcome: Outcome, rounds: nat, slept: int)
  {
    && (outcome == AllDecided <==> StillPresent(probe, |ids|, rounds) == {})
    && (cfg.maxAttempts > 0 ==> rounds <= cfg.maxAttempts)
    && match outcome
       case AllDecided => slept == Slept(cfg, rounds - 1)
       case Cancelled =>
         rounds > 0 && cancelled(rounds - 1) && slept == Slept(cfg, rounds - 1) && rounds != cfg.maxAttempts
       case Watched =>
         rounds == horizon && slept == Slept(cfg, rounds) && (cfg.maxAttempts > 0 ==> rounds < cfg.maxAttempts)
       case Deadline(err) =>
         && rounds == cfg.maxAttempts && slept == Budget(cfg)
         && err == DeadlineError(rounds, GoneCount(probe, rounds, |ids|), |ids|, PresentList(ids, probe, rounds, |ids|))
  }

  /** Where the poller stands between two rounds. */
  ghost predicate Polling(cfg: BackoffConfig, ids: seq<string>, del: Delete, probe: Probe, cancelled: nat -> bool,
                          n: nat, vms: seq<Vm>, pending: set<nat>, delErr: seq<Error>, log: seq<Call>, slept: int)
  {
    && Tracks(ids, probe, n, vms, pending) && pending != {}
    && Errors(ids, probe, del, n, delErr) && Asked(|ids|, probe, n, true, log)
    && slept == Slept(cfg, n)
    && Unfinished(ids, probe, cancelled, n)
  }

  /** None of the first n rounds closed the last VM, and none of the sleeps after them was cancelled. */
  ghost predicate Unfinished(ids: seq<string>, probe: Probe, cancelled: nat -> bool, n: nat) {
    && (forall k: nat :: k <= n ==> StillPresent(probe, |ids|, k) != {})
    && (forall k: nat :: k < n ==> !cancelled(k))
  }

  /** A round of probes, logged. */
  method PollRound(cfg: BackoffConfig, ids: seq<string>, del: Delete, probe: Probe, ghost cancelled: nat -> bool,
                   n: nat, vms: seq<Vm>, pending: set<nat>, ghost delErr: seq<Error>, log: seq<Call>, ghost slept: int)
    returns (vms': seq<Vm>, pending': set<nat>, reissue: seq<nat>, log': seq<Call>)
    requires Polling(cfg, ids, del, probe, cancelled, n, vms, pending, delErr, log, slept)
    ensures Tracks(ids, probe, n + 1, vms', pending') && Asked(|ids|, probe, n + 1, false, log')
    ensures ReissuesBut(probe, |ids|, n + 1, reissue, {})
  {
    var calls;
    vms', pending', reissue, calls := ProbeRound(ids, probe, n, vms, pending);
    HistoryGrows(|ids|, probe, n, log, calls);
    log' := log + calls;
  }

  /** The sleep after round n, and the deletes issued again once it is over. */
  method SleepThrough(cfg: BackoffConfig, ids: seq<string>, del: Delete, probe: Probe, n: nat, delErr: seq<Error>,
                      reissue: seq<nat>, log: seq<Call>, slept: int)
    returns (delErr': seq<Error>, log': seq<Call>, slept': int)
    requires n > 0 && Errors(ids, probe, del, n - 1, delErr) && Asked(|ids|, probe, n, false, log)
    requires ReissuesBut(probe, |ids|, n, reissue, {}) && slept == Slept(cfg, n - 1)
    ensures Errors(ids, probe, del, n, delErr') && Asked(|ids|, probe, n, true, log') && slept' == Slept(cfg, n)
  {
    var d := NextDelay(cfg, n - 1);
    slept' := slept + d;
    var calls;
    delErr', calls := Reissue(ids, probe, del, n, delErr, reissue);
    HistorySlept(|ids|, probe, n, log, calls, reissue);
    log' := log + calls;
  }

  lemma AllClosed(ids: seq<string>, probe: Probe, del: Delete, n: nat, vms: seq<Vm>, pending: set<nat>)
    requires n > 0 && Tracks(ids, probe, n, vms, pending)
    ensures pending == {} ==> Reported(ids, probe, del, n, Results(vms))
  {
    if pending == {} {
      forall i | 0 <= i < |ids| ensures FateOf(probe, i, n) != Present {
        assert i !in StillPresent(probe, |ids|, n);
      }
    }
  }

  lemma NotYet(ids: seq<string>, probe: Probe, cancelled: nat -> bool, n: nat, vms: seq<Vm>, pending: set<nat>)
    requires n > 0 && Unfinished(ids, probe, cancelled, n - 1) && Tracks(ids, probe, n, vms, pending) && pending != {}
    ensures !cancelled(n - 1) ==> Unfinished(ids, probe, cancelled, n)
  {
  }

  /** The budget is used up. */
  method GiveUp(cfg: BackoffConfig, ids: seq<string>, probe: Probe, del: Delete, ghost cancelled: nat -> bool,
                ghost horizon: nat,
                vms: seq<Vm>, pending: set<nat>, delErr: seq<Error>, n: nat, ghost slept: int)
    returns (results: seq<DestroyResult>, outcome: Outcome)
    requires n > 0 && Tracks(ids, probe, n, vms, pending) && pending != {} && Errors(ids, probe, del, n - 1, delErr)
    requires n == cfg.maxAttempts && slept == Slept(cfg, n - 1)
    ensures outcome.Deadline? && Accounted(cfg, ids, probe, cancelled, horizon, outcome, n, slept)
    ensures Reported(ids, probe, del, n, results)
  {
    var e := NewDeadlineError(ids, probe, vms, pending, n);
    results := CloseOut(ids, probe, del, n, vms, pending, delErr);
    outcome := Deadline(e);
  }

  method Run(cfg: BackoffConfig, ids: seq<string>, del: Delete, probe: Probe, cancelled: nat -> bool,
                    horizon: nat)
    returns (results: seq<DestroyResult>, outcome: Outcome, rounds: nat, slept: int, log: seq<Call>)
    ensures Accounted(cfg, ids, probe, cancelled, horizon, outcome, rounds, slept)
    ensures |results| == |ids| && Asked(|ids|, probe, rounds, outcome == Watched, log)
    ensures ids != [] && outcome != Watched ==> rounds > 0 && Reported(ids, probe, del, rounds, results)
    ensures ids == [] ==> rounds == 0 && log == []
    ensures rounds > 0 ==> Unfinished(ids, probe, cancelled, rounds - 1)
  {
    rounds, slept, log := 0, 0, [];
    var vms, pending := Start(ids, probe);
    if ids == [] { return [], AllDecided, rounds, slept, log; }
    assert 0 in pending;
    var delErr;
    delErr, log := DeleteAll(ids, probe, del);
    while rounds < horizon
      invariant rounds <= horizon && (cfg.maxAttempts > 0 ==> rounds < cfg.maxAttempts)
      invariant Polling(cfg, ids, del, probe, cancelled, rounds, vms, pending, delErr, log, slept)
      decreases horizon - rounds
    {
      var reissue;
      vms, pending, reissue, log :=
        PollRound(cfg, ids, del, probe, cancelled, rounds, vms, pending, delErr, log, slept);
      rounds := rounds + 1;
      AllClosed(ids, probe, del, rounds, vms, pending);
      if pending == {} { return Results(vms), AllDecided, rounds, slept, log; }
      NotYet(ids, probe, cancelled, rounds, vms, pending);
      if cfg.maxAttempts > 0 && rounds >= cfg.maxAttempts {
        results, outcome := GiveUp(cfg, ids, probe, del, cancelled, horizon, vms, pending, delErr, rounds, slept);
        return results, outcome, rounds, slept, log;
      }
      if cancelled(rounds - 1) {
        results := CloseOut(ids, probe, del, rounds, vms, pending, delErr);
        return results, Cancelled, rounds, slept, log;
      }
      delErr, log, slept := SleepThrough(cfg, ids, del, probe, rounds, delErr, reissue, log, slept);
    }
    return Results(vms), Watched, rounds, slept, log;
  }

  /** What a finished run has asked and reported, read off the probe and the delete calls: on every return
      path each VM has its result, in the order passed, and the calls about it are its history. */
  method DestroyAll(cfg: BackoffConfig, ids: seq<string>, del: Delete, probe: Probe, cancelled: nat -> bool,
                    horizon: nat)
    returns (results: seq<DestroyResult>, outcome: Outcome, rounds: nat, slept: int, log: seq<Call>)
    ensures Accounted(cfg, ids, probe, cancelled, horizon, outcome, rounds, slept)
    ensures |results| == |ids| && Asked(|ids|, probe, rounds, outcome == Watched, log)
    ensures ids == [] ==> rounds == 0 && log == []
    ensures ids != [] && outcome != Watched ==>
      rounds > 0 && forall i :: 0 <= i < |ids| ==> Tells(results[i], ids[i], probe, del, i, rounds)
    ensures outcome.Deadline? ==> Reports(outcome.err, ids, probe, rounds)
    ensures outcome == AllDecided <==> AllAnswered(ids, probe, rounds)
    ensures forall k: nat :: k < rounds ==> !AllAnswered(ids, probe, k)
    ensures forall k: nat :: k < rounds - 1 ==> !cancelled(k)
  {
    results, outcome, rounds, slept, log := Run(cfg, ids, del, probe, cancelled, horizon);
    if ids != [] && outcome != Watched { ResultsTell(ids, probe, del, rounds, results); }
    DeadlineReports(ids, probe, rounds);
    forall k: nat ensures StillPresent(probe, |ids|, k) == {} <==> AllAnswered(ids, probe, k) {
      StillExactly(ids, probe, k);
    }
  }

  ghost predicate AllAnswered(ids: seq<string>, probe: Probe, n: nat) {
    forall i :: 0 <= i < |ids| ==> !Undecided(probe, i, n)
  }

  lemma StillExactly(ids: seq<string>, probe: Probe, n: nat)
    ensures StillPresent(probe, |ids|, n) == {} <==> AllAnswered(ids, probe, n)
  {
    var still := StillPresent(probe, |ids|, n);
    forall i: nat ensures i in still <==> i < |ids| && Undecided(probe, i, n) { PresentExactly(probe, i, n); }
  }

  lemma ResultsTell(ids: seq<string>, probe: Probe, del: Delete, n: nat, results: seq<DestroyResult>)
    requires n > 0 && Reported(ids, probe, del, n, results)
    ensures forall i :: 0 <= i < |ids| ==> Tells(results[i], ids[i], probe, del, i, n)
  {
    forall i | 0 <= i < |ids| ensures Tells(results[i], ids[i], probe, del, i, n) {
      ResultTells(ids[i], probe, del, i, n);
    }
  }
}
