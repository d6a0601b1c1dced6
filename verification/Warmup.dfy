/** WarmupOrchestrator of lsp/warmup.go as a state machine. A step is one atomic action of Start, Stop, a worker, the
dispatcher or the completion goroutine of some run; any interleaving of enabled steps is a behaviour. */
module Warmup {
  import opened Wrappers
  import opened Uris

  // A worker waits in its select, holds a received position, runs the callback on it, or is gone.
  datatype Worker = Waiting | Holding(pos: nat) | Calling(pos: nat) | Exited

  // The dispatcher waits for the ticker, offers a position on the channel, or has closed it.
  datatype Dispatcher = Ticking | Offering | Closed

  // `next` is the position the dispatcher is at, `log` the positions the callback was called on.
  datatype Run = Run(
    uris: seq<Uri>,
    launched: bool,
    cancelled: bool,
    workers: seq<Worker>,
    dispatcher: Dispatcher,
    next: nat,
    log: seq<nat>,
    completed: bool,
    clean: bool)

  // Run k is the k-th started; the current runID is the number of runs.  `cancel` is the run
  // whose cancel function is stored; `stopping` are those a Stop call took and has yet to call.
  datatype State = State(workers: int, runs: seq<Run>, cancel: Option<nat>, stopping: set<nat>)

  datatype Step =
    | SetWorkers(n: int)
    | Start(uris: seq<Uri>)
    | Launch(run: nat)
    | StopTake
    | StopCall(run: nat)
    | Tick(run: nat)
    | Deliver(run: nat, w: nat)
    | CloseDone(run: nat)
    | CloseCancelled(run: nat)
    | Call(run: nat, w: nat)
    | Skip(run: nat, w: nat)
    | Return(run: nat, w: nat)
    | ExitClosed(run: nat, w: nat)
    | ExitCancelled(run: nat, w: nat)
    | Complete(run: nat)

  function Init(workers: int): State
  {
    State(workers, [], None, {})
  }

  // Start uses two workers when none were configured.
  function WorkerCount(n: int): nat
  {
    if n <= 0 then 2 else n
  }

  function NewRun(uris: seq<Uri>, workers: nat): Run
  {
    Run(uris, false, false, seq(workers, _ => Waiting), Ticking, 0, [], false, false)
  }

  function Cancelled(runs: seq<Run>, k: nat): seq<Run>
    requires k < |runs|
  {
    runs[k := runs[k].(cancelled := true)]
  }

  // The steps that belong to one run's goroutines.
  predicate IsRunStep(t: Step)
  {
    !t.SetWorkers? && !t.Start? && !t.Launch? && !t.StopTake? && !t.StopCall?
  }

  predicate WorkerStep(t: Step)
  {
    t.Deliver? || t.Call? || t.Skip? || t.Return? || t.ExitClosed? || t.ExitCancelled?
  }

  // Whether a goroutine of run r can take the step.
  predicate RunEnabled(r: Run, t: Step)
    requires IsRunStep(t)
  {
    && r.launched
    && (WorkerStep(t) ==> t.w < |r.workers|)
    && match t
       case Tick(_) => r.dispatcher.Ticking? && r.next < |r.uris|
       case Deliver(_, w) => r.dispatcher.Offering? && r.workers[w].Waiting?
       case CloseDone(_) => r.dispatcher.Ticking? && r.next == |r.uris|
       case CloseCancelled(_) => !r.dispatcher.Closed? && r.next < |r.uris| && r.cancelled
       case Call(_, w) => r.workers[w].Holding? && r.workers[w].pos < |r.uris| && r.uris[r.workers[w].pos] != ""
       case Skip(_, w) => r.workers[w].Holding? && r.workers[w].pos < |r.uris| && r.uris[r.workers[w].pos] == ""
       case Return(_, w) => r.workers[w].Calling?
       case ExitClosed(_, w) => r.workers[w].Waiting? && r.dispatcher.Closed?
       case ExitCancelled(_, w) => r.workers[w].Waiting? && r.cancelled
       case Complete(_) => !r.completed && forall w :: 0 <= w < |r.workers| ==> r.workers[w].Exited?
  }

  function RunApply(r: Run, t: Step): Run
    requires IsRunStep(t) && RunEnabled(r, t)
  {
    match t
    case Tick(_) => r.(dispatcher := Offering)
    case Deliver(_, w) => r.(dispatcher := Ticking, next := r.next + 1, workers := r.workers[w := Holding(r.next)])
    case CloseDone(_) => r.(dispatcher := Closed)
    case CloseCancelled(_) => r.(dispatcher := Closed)
    case Call(_, w) => r.(workers := r.workers[w := Calling(r.workers[w].pos)], log := r.log + [r.workers[w].pos])
    case Skip(_, w) => r.(workers := r.workers[w := Waiting])
    case Return(_, w) => r.(workers := r.workers[w := Waiting])
    case ExitClosed(_, w) => r.(workers := r.workers[w := Exited])
    case ExitCancelled(_, w) => r.(workers := r.workers[w := Exited])
    case Complete(_) => r.(completed := true, clean := !r.cancelled)
  }

  predicate Enabled(s: State, t: Step)
  {
    match t
    case SetWorkers(_) => true
    case Start(_) => s.cancel.Some? ==> s.cancel.value < |s.runs|
    case Launch(k) => k < |s.runs| && !s.runs[k].launched
    case StopTake => true
    case StopCall(k) => k in s.stopping && k < |s.runs|
    case _ => t.run < |s.runs| && RunEnabled(s.runs[t.run], t)
  }

  // The completion goroutine clears the stored cancel function only if its run is current.
  function Apply(s: State, t: Step): State
    requires Enabled(s, t)
  {
    match t
    case SetWorkers(n) => s.(workers := if n <= 0 then 2 else n)
    case Start(uris) =>
      var runs := if s.cancel.Some? then Cancelled(s.runs, s.cancel.value) else s.runs;
      s.(workers := WorkerCount(s.workers),
         runs := runs + [NewRun(uris, WorkerCount(s.workers))],
         cancel := Some(|s.runs|))
    case Launch(k) => s.(runs := s.runs[k := s.runs[k].(launched := true)])
    case StopTake => s.(cancel := None, stopping := s.stopping + (if s.cancel.Some? then {s.cancel.value} else {}))
    case StopCall(k) => s.(runs := Cancelled(s.runs, k), stopping := s.stopping - {k})
    case _ =>
      var runs := s.runs[t.run := RunApply(s.runs[t.run], t)];
      if t.Complete? && t.run == |s.runs| - 1 then s.(runs := runs, cancel := None) else s.(runs := runs)
  }

  ghost predicate Behaviour(states: seq<State>, steps: seq<Step>, workers: int)
  {
    && |states| == |steps| + 1
    && states[0] == Init(workers)
    && forall i :: 0 <= i < |steps| ==> Enabled(states[i], steps[i]) && states[i + 1] == Apply(states[i], steps[i])
  }

  // ---------- one run ----------

  // Position i is with some worker that has not called the callback on it yet.
  ghost predicate Held(r: Run, i: nat)
  {
    exists w :: 0 <= w < |r.workers| && r.workers[w] == Holding(i)
  }

  // Every position handed out is logged once or held once, never both.
  ghost predicate Accounted(r: Run)
  {
    && Distinct(r.log)
    && r.next <= |r.uris|
    && (forall i :: i in r.log ==> i < r.next && r.uris[i] != "" && !Held(r, i))
    && (forall w :: 0 <= w < |r.workers| && r.workers[w].Holding? ==> r.workers[w].pos < r.next)
    && (forall v, w :: 0 <= v < w < |r.workers| && r.workers[v].Holding? ==> r.workers[v] != r.workers[w])
    && (forall i :: 0 <= i < r.next && r.uris[i] != "" ==> i in r.log || Held(r, i))
  }

  // An uncancelled run ends its phases in order.
  ghost predicate Phased(r: Run)
  {
    && |r.workers| > 0
    && (r.dispatcher.Offering? ==> r.next < |r.uris|)
    && (r.dispatcher.Closed? && !r.cancelled ==> r.next == |r.uris|)
    && ((exists w :: 0 <= w < |r.workers| && r.workers[w].Exited?) && !r.cancelled ==> r.dispatcher.Closed?)
    && (r.completed ==> forall w :: 0 <= w < |r.workers| ==> r.workers[w].Exited?)
    && (r.clean ==> r.completed)
    && (r.completed && !r.cancelled ==> r.clean)
    && (r.clean ==> AllIndexed(r))
  }

  // The callback was called on every position with a non-empty URI, on each exactly once.
  ghost predicate AllIndexed(r: Run)
  {
    Distinct(r.log) && forall i :: i in r.log <==> 0 <= i < |r.uris| && r.uris[i] != ""
  }

  ghost predicate Increasing(log: seq<nat>)
  {
    forall i, j :: 0 <= i < j < |log| ==> log[i] < log[j]
  }

  // A single worker calls the callback in list order.
  ghost predicate InOrder(r: Run)
  {
    |r.workers| == 1 ==>
      Increasing(r.log) && (r.workers[0].Holding? ==> forall i :: i in r.log ==> i < r.workers[0].pos)
  }

  ghost predicate RunInv(r: Run)
  {
    Accounted(r) && Phased(r) && InOrder(r)
  }

  lemma NewRunInv(uris: seq<Uri>, workers: nat)
    requires workers > 0
    ensures RunInv(NewRun(uris, workers))
  {
  }

  lemma DeliverKeeps(r: Run, t: Step)
    requires RunInv(r) && t.Deliver? && RunEnabled(r, t)
    ensures RunInv(RunApply(r, t))
  {
    var r' := RunApply(r, t);
    assert r'.workers[t.w] == Holding(r.next);
    forall i | 0 <= i < r.next && Held(r, i) ensures Held(r', i) {
      var v :| 0 <= v < |r.workers| && r.workers[v] == Holding(i);
      assert r'.workers[v] == Holding(i);
    }
    assert forall i :: 0 <= i < r.next && Held(r', i) ==> Held(r, i);
    assert Held(r', r.next);
  }

  lemma CallAccounts(r: Run, t: Step)
    requires Accounted(r) && t.Call? && RunEnabled(r, t)
    ensures Accounted(RunApply(r, t))
  {
    var r', p := RunApply(r, t), r.workers[t.w].pos;
    assert Held(r, p);
    HeldAfterRelease(r, t.w, Calling(p));
    SameWorkersHeld(r.(workers := r.workers[t.w := Calling(p)]), r');
    hide Held;
    assert forall i :: i in r'.log <==> i in r.log || i == p;
    assert forall i :: 0 <= i < |r.log| ==> r.log[i] in r.log;
  }

  lemma CallKeeps(r: Run, t: Step)
    requires RunInv(r) && t.Call? && RunEnabled(r, t)
    ensures RunInv(RunApply(r, t))
  {
    CallAccounts(r, t);
    hide Accounted;
    var r', p := RunApply(r, t), r.workers[t.w].pos;
    assert forall i :: i in r'.log <==> i in r.log || i == p;
    assert forall i :: 0 <= i < |r.log| ==> r.log[i] in r.log;
  }

  // A worker that stops holding releases exactly its own position.
  lemma HeldAfterRelease(r: Run, w: nat, now: Worker)
    requires w < |r.workers| && r.workers[w].Holding? && !now.Holding?
    requires forall u, v :: 0 <= u < v < |r.workers| && r.workers[u].Holding? ==> r.workers[u] != r.workers[v]
    ensures
      var r' := r.(workers := r.workers[w := now]);
      forall i: nat :: Held(r', i) <==> Held(r, i) && i != r.workers[w].pos
  {
    var r' := r.(workers := r.workers[w := now]);
    forall i: nat ensures Held(r', i) <==> Held(r, i) && i != r.workers[w].pos {
      if Held(r, i) && i != r.workers[w].pos {
        var v :| 0 <= v < |r.workers| && r.workers[v] == Holding(i);
        assert r'.workers[v] == Holding(i);
      }
      if Held(r', i) {
        var v :| 0 <= v < |r'.workers| && r'.workers[v] == Holding(i);
        assert r.workers[v] == Holding(i);
      }
    }
  }

  lemma SkipKeeps(r: Run, t: Step)
    requires RunInv(r) && t.Skip? && RunEnabled(r, t)
    ensures RunInv(RunApply(r, t))
  {
    HeldAfterRelease(r, t.w, Waiting);
  }

  // Steps that neither take nor release a position.
  lemma QuietHeld(r: Run, t: Step)
    requires (t.Return? || t.ExitClosed? || t.ExitCancelled?) && RunEnabled(r, t)
    ensures forall i: nat :: Held(RunApply(r, t), i) <==> Held(r, i)
  {
    var r' := RunApply(r, t);
    forall i: nat ensures Held(r', i) <==> Held(r, i) {
      if Held(r, i) {
        var v :| 0 <= v < |r.workers| && r.workers[v] == Holding(i);
        assert r'.workers[v] == Holding(i);
      }
      if Held(r', i) {
        var v :| 0 <= v < |r'.workers| && r'.workers[v] == Holding(i);
        assert r.workers[v] == Holding(i);
      }
    }
  }

  lemma QuietKeeps(r: Run, t: Step)
    requires RunInv(r) && (t.Return? || t.ExitClosed? || t.ExitCancelled?) && RunEnabled(r, t)
    ensures RunInv(RunApply(r, t))
  {
    QuietHeld(r, t);
    hide Held;
  }

  // Nothing but workers changes what is held.
  lemma SameWorkersHeld(r: Run, r': Run)
    requires r.workers == r'.workers
    ensures forall i: nat :: Held(r, i) <==> Held(r', i)
  {
  }

  lemma CompleteKeeps(r: Run, t: Step)
    requires RunInv(r) && t.Complete? && RunEnabled(r, t)
    ensures RunInv(RunApply(r, t))
  {
    SameWorkersHeld(r, RunApply(r, t));
    assert r.workers[0].Exited?;
    assert forall i: nat :: !Held(r, i);
  }

  lemma RunStepKeeps(r: Run, t: Step)
    requires RunInv(r) && IsRunStep(t) && RunEnabled(r, t)
    ensures RunInv(RunApply(r, t))
  {
    if t.Deliver? {
      DeliverKeeps(r, t);
    } else if t.Call? {
      CallKeeps(r, t);
    } else if t.Skip? {
      SkipKeeps(r, t);
    } else if t.Complete? {
      CompleteKeeps(r, t);
    } else if WorkerStep(t) {
      QuietKeeps(r, t);
    } else {
      SameWorkersHeld(r, RunApply(r, t));
    }
  }

  lemma CancelKeeps(r: Run)
    requires RunInv(r)
    ensures RunInv(r.(cancelled := true)) && RunInv(r.(launched := true))
  {
    SameWorkersHeld(r, r.(cancelled := true));
    SameWorkersHeld(r, r.(launched := true));
  }

  // ---------- all runs ----------

  // The stored cancel function is that of the latest run, which is neither cancelled nor
  // completed; every other run is cancelled, completed, or about to be cancelled by a Stop.
  ghost predicate Inv(s: State)
  {
    && (forall k :: 0 <= k < |s.runs| ==> RunInv(s.runs[k]))
    && (s.cancel.Some? ==>
          s.cancel.value == |s.runs| - 1 && !s.runs[s.cancel.value].cancelled && !s.runs[s.cancel.value].completed
          && s.cancel.value !in s.stopping)
    && (forall k :: k in s.stopping ==> k < |s.runs|)
    && (forall k: nat :: k < |s.runs| ==>
          s.cancel == Some(k) || s.runs[k].cancelled || s.runs[k].completed || k in s.stopping)
  }

  lemma StartKeeps(s: State, t: Step)
    requires Inv(s) && t.Start? && Enabled(s, t)
    ensures Inv(Apply(s, t))
  {
    NewRunInv(t.uris, WorkerCount(s.workers));
    if s.cancel.Some? {
      CancelKeeps(s.runs[s.cancel.value]);
    }
    hide RunInv;
  }

  lemma OutsideKeeps(s: State, t: Step)
    requires Inv(s) && (t.SetWorkers? || t.Launch? || t.StopTake? || t.StopCall?) && Enabled(s, t)
    ensures Inv(Apply(s, t))
  {
    hide RunInv;
    if t.Launch? || t.StopCall? {
      CancelKeeps(s.runs[t.run]);
    }
  }

  lemma InsideKeeps(s: State, t: Step)
    requires Inv(s) && IsRunStep(t) && Enabled(s, t)
    ensures Inv(Apply(s, t))
  {
    hide RunInv;
    RunStepKeeps(s.runs[t.run], t);
  }

  lemma StepKeeps(s: State, t: Step)
    requires Inv(s) && Enabled(s, t)
    ensures Inv(Apply(s, t))
  {
    hide Inv;
    if t.Start? {
      StartKeeps(s, t);
    } else if IsRunStep(t) {
      InsideKeeps(s, t);
    } else {
      OutsideKeeps(s, t);
    }
  }

  lemma {:induction false} BehaviourKeeps(states: seq<State>, steps: seq<Step>, workers: int, i: nat)
    requires Behaviour(states, steps, workers) && i < |states|
    ensures Inv(states[i])
  {
    if i > 0 {
      BehaviourKeeps(states, steps, workers, i - 1);
      StepKeeps(states[i - 1], steps[i - 1]);
    }
  }

  // In every state of every behaviour and for every run: no position is indexed twice and
  // only positions with a URI are; a run that completed uncancelled indexed all of those;
  // a single worker did so in list order.
  lemma IndexedAtMostOnce(states: seq<State>, steps: seq<Step>, workers: int, i: nat, k: nat)
    requires Behaviour(states, steps, workers) && i < |states| && k < |states[i].runs|
    ensures
      var r := states[i].runs[k];
      && Distinct(r.log)
      && (forall p :: p in r.log ==> p < |r.uris| && r.uris[p] != "")
      && (r.completed && !r.cancelled ==> AllIndexed(r))
      && (r.clean ==> AllIndexed(r))
      && (|r.workers| == 1 ==> Increasing(r.log))
  {
    BehaviourKeeps(states, steps, workers, i);
  }

  // The latest run keeps its cancel function until it completes or a Stop takes it, whatever
  // older runs do; and no other run is left running uncancelled, but for a Stop under way.
  lemma LatestRunKeepsHandle(states: seq<State>, steps: seq<Step>, workers: int, i: nat, k: nat)
    requires Behaviour(states, steps, workers) && i < |states| && k < |states[i].runs|
    ensures
      var s := states[i];
      var r := s.runs[k];
      var live := !r.completed && !r.cancelled && k !in s.stopping;
      && (live <==> s.cancel == Some(k))
      && (live ==> k == |s.runs| - 1)
  {
    BehaviourKeeps(states, steps, workers, i);
  }

  // ---------- Stop ----------

  // Once Stop has called all it took, and nothing was started since, every run is cancelled or complete.
  lemma StopEndsAll(states: seq<State>, steps: seq<Step>, workers: int, i: nat, j: nat, k: nat)
    requires Behaviour(states, steps, workers) && i < j < |states| && steps[i].StopTake?
    requires forall q :: i < q < j ==> !steps[q].Start?
    requires states[j].stopping == {} && k < |states[j].runs|
    ensures states[j].runs[k].cancelled || states[j].runs[k].completed
  {
    HandleStaysTaken(states, steps, workers, i, j);
    LatestRunKeepsHandle(states, steps, workers, j, k);
  }

  lemma {:induction false} HandleStaysTaken(states: seq<State>, steps: seq<Step>, workers: int, i: nat, j: nat)
    requires Behaviour(states, steps, workers) && i < j < |states| && steps[i].StopTake?
    requires forall q :: i < q < j ==> !steps[q].Start?
    ensures states[j].cancel.None?
    decreases j
  {
    assert states[j] == Apply(states[j - 1], steps[j - 1]);
    if i < j - 1 {
      HandleStaysTaken(states, steps, workers, i, j - 1);
    }
  }

  // A run is cancelled only by a later Start or by a Stop that called its cancel function.
  lemma {:induction false} CancelledWhy(states: seq<State>, steps: seq<Step>, workers: int, i: nat, k: nat)
    requires Behaviour(states, steps, workers) && i < |states| && k < |states[i].runs| && states[i].runs[k].cancelled
    ensures k + 1 < |states[i].runs| || exists q :: 0 <= q < i && steps[q] == StopCall(k)
  {
    if i > 0 {
      CancelledBefore(states[i - 1], steps[i - 1], k);
      if k < |states[i - 1].runs| && states[i - 1].runs[k].cancelled {
        CancelledWhy(states, steps, workers, i - 1, k);
        NoneRemoved(states[i - 1], steps[i - 1]);
      }
    }
  }

  lemma NoneRemoved(s: State, t: Step)
    requires Enabled(s, t)
    ensures |s.runs| <= |Apply(s, t).runs|
  {
  }

  lemma CancelledBefore(s: State, t: Step, k: nat)
    requires Enabled(s, t) && k < |Apply(s, t).runs| && Apply(s, t).runs[k].cancelled
    ensures (k < |s.runs| && s.runs[k].cancelled) || k + 1 < |Apply(s, t).runs| || t == StopCall(k)
  {
  }

  // ---------- configured workers ----------

  lemma {:induction false} WorkersStay(states: seq<State>, steps: seq<Step>, workers: int, i: nat, j: nat)
    requires Behaviour(states, steps, workers) && i < j < |states| && steps[i].SetWorkers?
    requires forall q :: i < q < j ==> !steps[q].SetWorkers?
    ensures states[j].workers == if steps[i].n <= 0 then 2 else steps[i].n
    decreases j
  {
    assert states[j] == Apply(states[j - 1], steps[j - 1]);
    if i < j - 1 {
      WorkersStay(states, steps, workers, i, j - 1);
    }
  }

  // Steps neither remove runs nor change what they index or their number of workers.
  lemma StepStays(s: State, t: Step, k: nat)
    requires Enabled(s, t) && k < |s.runs|
    ensures var n := Apply(s, t);
      k < |n.runs| && n.runs[k].uris == s.runs[k].uris && |n.runs[k].workers| == |s.runs[k].workers|
  {
    if IsRunStep(t) && t.run == k {
      RunStepStays(s.runs[k], t);
    }
  }

  lemma RunStepStays(r: Run, t: Step)
    requires IsRunStep(t) && RunEnabled(r, t)
    ensures RunApply(r, t).uris == r.uris && |RunApply(r, t).workers| == |r.workers|
  {
  }

  lemma {:induction false} RunStays(states: seq<State>, steps: seq<Step>, workers: int, a: nat, b: nat, k: nat)
    requires Behaviour(states, steps, workers) && a <= b < |states| && k < |states[a].runs|
    ensures k < |states[b].runs| && states[b].runs[k].uris == states[a].runs[k].uris
    ensures |states[b].runs[k].workers| == |states[a].runs[k].workers|
    decreases b
  {
    if a < b {
      RunStays(states, steps, workers, a, b - 1, k);
      StepStays(states[b - 1], steps[b - 1], k);
    }
  }

  // A run has the number of workers that was set last when it started, or two if that was not positive; so with one
  // worker it indexes its list in order.
  lemma RunAsConfigured(states: seq<State>, steps: seq<Step>, workers: int, i: nat, j: nat, m: nat)
    requires Behaviour(states, steps, workers) && i < j < m < |states| && steps[i].SetWorkers? && steps[j].Start?
    requires forall q :: i < q < j ==> !steps[q].SetWorkers?
    ensures |states[j].runs| < |states[m].runs|
    ensures var r := states[m].runs[|states[j].runs|];
      && r.uris == steps[j].uris
      && |r.workers| == (if steps[i].n <= 0 then 2 else steps[i].n)
      && (steps[i].n == 1 ==> Increasing(r.log))
  {
    var k := |states[j].runs|;
    WorkersStay(states, steps, workers, i, j);
    assert states[j + 1] == Apply(states[j], steps[j]);
    RunStays(states, steps, workers, j + 1, m, k);
    IndexedAtMostOnce(states, steps, workers, m, k);
  }

  lemma {:induction false} WorkersAtFirst(states: seq<State>, steps: seq<Step>, workers: int, j: nat)
    requires Behaviour(states, steps, workers) && j < |states|
    requires forall q :: 0 <= q < j ==> !steps[q].SetWorkers?
    ensures states[j].workers == workers || states[j].workers == if workers <= 0 then 2 else workers
    decreases j
  {
    if j > 0 {
      WorkersAtFirst(states, steps, workers, j - 1);
      assert states[j] == Apply(states[j - 1], steps[j - 1]);
    }
  }

  // Before a number is set, it is the one at first, or two if that is not positive.
  lemma RunAsAtFirst(states: seq<State>, steps: seq<Step>, workers: int, j: nat, m: nat)
    requires Behaviour(states, steps, workers) && j < m < |states| && steps[j].Start?
    requires forall q :: 0 <= q < j ==> !steps[q].SetWorkers?
    ensures |states[j].runs| < |states[m].runs|
    ensures var r := states[m].runs[|states[j].runs|];
      r.uris == steps[j].uris && |r.workers| == if workers <= 0 then 2 else workers
  {
    WorkersAtFirst(states, steps, workers, j);
    assert states[j + 1] == Apply(states[j], steps[j]);
    RunStays(states, steps, workers, j + 1, m, |states[j].runs|);
  }

  // ---------- termination ----------

  function WorkerWeight(w: Worker): nat
  {
    match w
    case Exited => 0
    case Waiting => 1
    case Calling(_) => 2
    case Holding(_) => 3
  }

  function Weights(ws: seq<Worker>): nat
  {
    if ws == [] then 0 else Weights(ws[..|ws| - 1]) + WorkerWeight(ws[|ws| - 1])
  }

  lemma {:induction false} WeightsUpdate(ws: seq<Worker>, w: nat, x: Worker)
    requires w < |ws|
    ensures Weights(ws[w := x]) + WorkerWeight(ws[w]) == Weights(ws) + WorkerWeight(x)
    decreases |ws|
  {
    var n := |ws| - 1;
    if w == n {
      assert ws[w := x][..n] == ws[..n];
    } else {
      WeightsUpdate(ws[..n], w, x);
      assert ws[w := x][..n] == ws[..n][w := x];
    }
  }

  // An upper bound on the steps a run's goroutines can still take.
  function Remaining(r: Run): nat
    requires r.next <= |r.uris|
  {
    (match r.dispatcher
     case Closed => 0
     case Ticking => 3 * (2 * (|r.uris| - r.next) + 1)
     case Offering => 6 * (|r.uris| - r.next))
    + Weights(r.workers) + (if r.completed then 0 else 1)
  }

  // Every step of a run's goroutines uses up some of the bound, cancelled or not.
  lemma RunStepsEnd(r: Run, t: Step)
    requires RunInv(r) && IsRunStep(t) && RunEnabled(r, t)
    ensures RunInv(RunApply(r, t)) && Remaining(RunApply(r, t)) < Remaining(r)
  {
    RunStepKeeps(r, t);
    if WorkerStep(t) {
      WeightsUpdate(r.workers, t.w, RunApply(r, t).workers[t.w]);
    }
  }

  // No run gets stuck: until it has completed, one of its goroutines can take a step.
  lemma RunNeverStuck(r: Run, k: nat) returns (t: Step)
    requires RunInv(r) && r.launched && !r.completed
    ensures IsRunStep(t) && t.run == k && RunEnabled(r, t)
  {
    if w :| 0 <= w < |r.workers| && r.workers[w].Holding? {
      t := if r.uris[r.workers[w].pos] != "" then Call(k, w) else Skip(k, w);
    } else if w :| 0 <= w < |r.workers| && r.workers[w].Calling? {
      t := Return(k, w);
    } else if w :| 0 <= w < |r.workers| && r.workers[w].Waiting? {
      t := match r.dispatcher
        case Closed => ExitClosed(k, w)
        case Offering => Deliver(k, w)
        case Ticking => if r.next < |r.uris| then Tick(k) else CloseDone(k);
    } else {
      t := Complete(k);
    }
  }

  // ---------- cancelled runs ----------

  // Steps of one run from r to q, at most one call on each position a worker holds and no position handed out.
  ghost predicate Winds(r: Run, steps: seq<Step>, q: Run)
    decreases |steps|
  {
    if steps == [] then q == r
    else
      && IsRunStep(steps[0]) && RunEnabled(r, steps[0]) && !steps[0].Tick? && !steps[0].Deliver?
      && Winds(RunApply(r, steps[0]), steps[1..], q)
  }

  // Once cancelled, a run can close its channel and complete without indexing anything but what workers have already
  // received: the callbacks under way return, and nobody waits for the list to end.
  lemma {:induction false} CancelledCompletes(r: Run, k: nat) returns (steps: seq<Step>, q: Run)
    requires RunInv(r) && r.launched && r.cancelled && !r.completed
    ensures Winds(r, steps, q) && q.completed && !q.clean && q.dispatcher.Closed? && q.next == r.next
    ensures forall p: nat :: p in q.log <==> Due(r, p)
    decreases Remaining(r)
  {
    var t := NextWind(r, k);
    RunStepsEnd(r, t);
    var r' := RunApply(r, t);
    WindKeepsDue(r, t);
    if t.Complete? {
      NothingHeld(r');
      steps, q := [t], r';
      assert steps[1..] == [];
      assert Winds(r', [], q);
    } else {
      var rest;
      rest, q := CancelledCompletes(r', k);
      steps := [t] + rest;
      assert steps[1..] == rest;
    }
  }

  // A step that winds a cancelled run down; it completes last.
  lemma NextWind(r: Run, k: nat) returns (t: Step)
    requires RunInv(r) && r.launched && r.cancelled && !r.completed
    ensures IsRunStep(t) && RunEnabled(r, t) && !t.Tick? && !t.Deliver?
    ensures t.Complete? ==> r.dispatcher.Closed?
  {
    if w :| 0 <= w < |r.workers| && r.workers[w].Holding? {
      t := if r.uris[r.workers[w].pos] != "" then Call(k, w) else Skip(k, w);
    } else if w :| 0 <= w < |r.workers| && r.workers[w].Calling? {
      t := Return(k, w);
    } else if w :| 0 <= w < |r.workers| && r.workers[w].Waiting? {
      t := ExitCancelled(k, w);
    } else if !r.dispatcher.Closed? {
      t := if r.next < |r.uris| then CloseCancelled(k) else CloseDone(k);
    } else {
      t := Complete(k);
    }
  }

  // The positions indexed and those still to be.
  ghost predicate Due(r: Run, p: nat)
  {
    p in r.log || (Held(r, p) && p < |r.uris| && r.uris[p] != "")
  }

  // Such a step leaves them as they are.
  lemma WindKeepsDue(r: Run, t: Step)
    requires RunInv(r) && IsRunStep(t) && RunEnabled(r, t) && !t.Tick? && !t.Deliver?
    ensures forall p: nat :: Due(RunApply(r, t), p) <==> Due(r, p)
  {
    var r' := RunApply(r, t);
    if t.Call? || t.Skip? {
      var p := r.workers[t.w].pos;
      assert Held(r, p);
      HeldAfterRelease(r, t.w, r'.workers[t.w]);
      SameWorkersHeld(r.(workers := r'.workers), r');
      hide Held;
      assert forall i :: i in r'.log <==> i in r.log || (t.Call? && i == p);
    } else if WorkerStep(t) {
      QuietHeld(r, t);
      hide Held;
    } else {
      SameWorkersHeld(r, r');
      hide Held;
    }
  }

  lemma NothingHeld(r: Run)
    requires forall w :: 0 <= w < |r.workers| ==> r.workers[w].Exited?
    ensures forall p: nat :: !Held(r, p)
  {
  }
}
