/** Why the managed-lookup protocol always gets to the end: its locks are nested one way, so
    some thread can always move, and every move uses up part of a bounded budget. */
module LookupProgress {
  import opened LookupThread
  import opened LookupRuns

  // --------------------------------------------------------------------- lock order

  /** The only nesting is the control mutex before a request's mutex: whoever holds a
      request's mutex is the worker or the sweep inside the control mutex, or a requester
      that needs no other lock; and whoever waits for the control mutex holds nothing. */
  lemma LockOrder(s: State, r: Id)
    requires Inv(s) && r in s.reqs
    ensures s.reqs[r].mux == ByWorker ==> s.ctl == ByWorker
    ensures s.reqs[r].mux == ByShutdown ==> s.ctl == ByShutdown
    ensures s.reqs[r].mux.ByRequester? ==> s.reqs[r].pc == HasReq && s.ctl != ByRequester(r)
    ensures s.worker == WantList || s.shutdown == WantLock ==>
      (s.worker == WantList ==> s.reqs[r].mux != ByWorker) && (s.shutdown == WantLock ==> s.reqs[r].mux != ByShutdown)
    ensures s.reqs[r].pc == WantCtl ==> !s.reqs[r].mux.ByRequester?
  {
  }

  // ----------------------------------------------------------------------- progress

  /** What the worker does next while it holds the control mutex. */
  function WorkerNext(s: State): WorkerStep {
    match s.worker
    case HasList => if s.zombie then Exit else Enter
    case Scan => if s.queue == [] then Sleep else First
    case WantRequest(_) => LockFirst
    case Took(_) => Remove
    case Removed(r) => if r in s.reqs && s.reqs[r].flags.zombie then Skip else Lookup(true)
    case LookedUp(_, _) => Mark
    case Marked(_, _) => MarkError
    case _ => Release
  }

  function ShutdownMove(s: State): ShutdownStep {
    match s.shutdown
    case HasLock => MarkAll
    case Sweep(i) => if i < |s.queue| then LockNext else Unlock
    case SweepHas(_) => MarkNext
    case SweepMarked(_) => UnlockNext
    case _ => Next
  }

  /** A step of whoever holds the control mutex. */
  function HolderNext(s: State): Action {
    match s.ctl
    case ByRequester(r) =>
      if At(s, r, Added) then Requester(r, UnlockCtl) else Requester(r, if s.zombie then Reject else Enqueue)
    case ByShutdown => Shutdown(ShutdownMove(s))
    case _ => Worker(WorkerNext(s))
  }

  lemma WorkerHolderMoves(s: State)
    requires Inv(s) && s.ctl == ByWorker
    ensures WorkerCan(s, WorkerNext(s))
  {
    Distinct(s);
    if Busy(s).Some? {
      assert Busy(s).value in s.reqs && ReqInv(s, Busy(s).value);
    }
  }

  lemma ShutdownHolderMoves(s: State)
    requires Inv(s) && s.ctl == ByShutdown
    ensures ShutdownCan(s, ShutdownMove(s))
  {
    if s.shutdown.Sweep? && s.shutdown.i < |s.queue| {
      assert ReqInv(s, s.queue[s.shutdown.i]);
    }
  }

  lemma HolderMoves(s: State)
    requires Inv(s) && s.ctl != Free
    ensures Enabled(s, HolderNext(s))
  {
    match s.ctl {
      case ByRequester(r) =>
      case ByShutdown => ShutdownHolderMoves(s);
      case ByWorker => WorkerHolderMoves(s);
    }
  }

  /** A step that brings requester `r` closer to its answer. */
  function HelpNext(s: State, r: Id): Action
    requires r in s.reqs
  {
    match s.reqs[r].pc
    case HasReq => Requester(r, UnlockReq)
    case Freeing => Requester(r, FreeReq)
    case Woken => if s.reqs[r].mux == Free then Requester(r, LockReq) else HolderNext(s)
    case Waiting =>
      if s.reqs[r].flags != ZERO then Requester(r, Wake)
      else if s.ctl != Free then HolderNext(s)
      else Worker(if s.worker == Idle then WakeUp else LockList)
    case WantCtl => if s.ctl == Free then Requester(r, LockCtl) else HolderNext(s)
    case _ => HolderNext(s)
  }

  /** No deadlock: as long as some requester is not done, a thread already in the protocol
      can take a step.  No new requester and no call of shutdown is needed. */
  lemma SomeoneCanMove(s: State, r: Id)
    requires Inv(s) && r in s.reqs && s.reqs[r].pc != Done
    ensures Enabled(s, HelpNext(s, r)) && !Outside(HelpNext(s, r))
  {
    assert ReqInv(s, r);
    if s.ctl != Free {
      HolderMoves(s);
    } else if s.reqs[r].pc == Waiting && s.reqs[r].flags == ZERO {
      Distinct(s);
      assert r in s.queue;
      var i :| 0 <= i < |s.queue| && s.queue[i] == r;
    }
  }

  /** The steps that start something new. */
  predicate Outside(a: Action) {
    match a
    case Requester(_, step) => step == Begin
    case Shutdown(move) => move == Call
    case _ => false
  }

  // ------------------------------------------------------------------- the budget

  function RequesterBudget(pc: RequesterPc): nat {
    match pc
    case WantCtl => 100
    case HasCtl => 99
    case Added => 50
    case Waiting => 49
    case Woken => 48
    case HasReq => 47
    case Freeing => 46
    case Done => 0
  }

  function WorkerBudget(s: State): nat {
    20 * |s.queue| + match s.worker
    case Idle => if s.queue == [] && !s.stop then 10 else 20
    case WantList => 19
    case HasList => 18
    case Scan => 17
    case WantRequest(_) => 16
    case Took(_) => 15
    case Removed(_) => 30
    case LookedUp(_, _) => 29
    case Marked(_, _) => 28
    case Finished(_) => 27
    case Exited => 0
  }

  function ShutdownBudget(s: State): int {
    match s.shutdown
    case NotCalled => 33 + 4 * |s.queue|
    case WantLock => 32 + 4 * |s.queue|
    case HasLock => 31 + 4 * |s.queue|
    case Sweep(i) => 30 + 4 * (|s.queue| - i)
    case SweepHas(i) => 29 + 4 * (|s.queue| - i)
    case SweepMarked(i) => 28 + 4 * (|s.queue| - i)
    case SweepNext(i) => 27 + 4 * (|s.queue| - i)
    case Stopping => 20
    case Stopped => 0
  }

  ghost function RequestersBudget(reqs: map<Id, Req>): nat {
    if reqs == map[] then 0
    else
      var r :| r in reqs;
      RequesterBudget(reqs[r].pc) + RequestersBudget(reqs - {r})
  }

  lemma {:induction false} BudgetOf(reqs: map<Id, Req>, r: Id)
    requires r in reqs
    ensures RequestersBudget(reqs) == RequesterBudget(reqs[r].pc) + RequestersBudget(reqs - {r})
    decreases |reqs|
  {
    var x :| x in reqs && RequestersBudget(reqs) == RequesterBudget(reqs[x].pc) + RequestersBudget(reqs - {x});
    if x != r {
      BudgetOf(reqs - {x}, r);
      BudgetOf(reqs - {r}, x);
      assert reqs - {x} - {r} == reqs - {r} - {x};
    }
  }

  ghost function Budget(s: State): int {
    RequestersBudget(s.reqs) + ThreadsBudget(s)
  }

  lemma BudgetIsNat(s: State)
    requires QueueInv(s)
    ensures Budget(s) >= 0
  {
  }

  lemma PcsMove(reqs: map<Id, Req>, r: Id, q: Req)
    requires r in reqs
    ensures RequestersBudget(reqs[r := q]) == RequestersBudget(reqs) - RequesterBudget(reqs[r].pc) + RequesterBudget(q.pc)
  {
    BudgetOf(reqs, r);
    BudgetOf(reqs[r := q], r);
    assert reqs[r := q] - {r} == reqs - {r};
  }

  function ThreadsBudget(s: State): int {
    WorkerBudget(s) + ShutdownBudget(s)
  }

  /** What one more place on the list can cost the other threads. */
  lemma ListCostsWorker(s: State, s': State)
    requires s'.worker == s.worker && s'.stop == s.stop
    ensures s'.queue == s.queue ==> WorkerBudget(s') == WorkerBudget(s)
    ensures |s'.queue| == |s.queue| + 1 ==> WorkerBudget(s') <= WorkerBudget(s) + 30
  {
  }

  lemma ListCostsShutdown(s: State, s': State)
    requires s'.shutdown == s.shutdown
    ensures |s'.queue| <= |s.queue| ==> ShutdownBudget(s') <= ShutdownBudget(s)
    ensures |s'.queue| == |s.queue| + 1 ==> ShutdownBudget(s') <= ShutdownBudget(s) + 4
  {
  }

  lemma RequesterCost(s: State, r: Id, step: RequesterStep)
    requires RequesterCan(s, r, step) && step != Begin
    ensures var s' := RequesterDoes(s, r, step);
      && s'.reqs == s.reqs[r := s'.reqs[r]]
      && s'.worker == s.worker && s'.stop == s.stop && s'.shutdown == s.shutdown
      && (step == Enqueue ==> |s'.queue| == |s.queue| + 1) && (step != Enqueue ==> s'.queue == s.queue)
      && RequesterBudget(s'.reqs[r].pc) + (if step == Enqueue then 34 else 0) < RequesterBudget(s.reqs[r].pc)
  {
  }

  lemma RequesterPays(s: State, r: Id, step: RequesterStep)
    requires RequesterCan(s, r, step) && step != Begin
    ensures Budget(RequesterDoes(s, r, step)) < Budget(s)
  {
    RequesterCost(s, r, step);
    var s' := RequesterDoes(s, r, step);
    ListCostsWorker(s, s');
    ListCostsShutdown(s, s');
    PcsMove(s.reqs, r, s'.reqs[r]);
  }

  lemma SamePcs(reqs: map<Id, Req>, r: Id, q: Req)
    requires r in reqs && q.pc == reqs[r].pc
    ensures RequestersBudget(reqs[r := q]) == RequestersBudget(reqs)
  {
    PcsMove(reqs, r, q);
  }

  lemma WorkerCost(s: State, job: WorkerStep)
    requires ControlInv(s) && WorkerCan(s, job) && job != Remove
    ensures var s' := WorkerDoes(s, job);
      WorkerBudget(s') < WorkerBudget(s) && s'.shutdown == s.shutdown && s'.queue == s.queue
  {
  }

  /** Taking a request off the list pays for serving it. */
  lemma RemoveCost(s: State)
    requires Inv(s) && WorkerCan(s, Remove)
    ensures var s' := WorkerDoes(s, Remove);
      WorkerBudget(s') < WorkerBudget(s) && s'.shutdown == s.shutdown && |s'.queue| == |s.queue| - 1
  {
    RemoveQueue(s);
  }

  lemma WorkerPays(s: State, job: WorkerStep)
    requires Inv(s) && WorkerCan(s, job)
    ensures Budget(WorkerDoes(s, job)) < Budget(s)
  {
    if job == Remove {
      RemoveCost(s);
    } else {
      WorkerCost(s, job);
    }
    ListCostsShutdown(s, WorkerDoes(s, job));
    var reqs' := WorkerDoes(s, job).reqs;
    if reqs' != s.reqs {
      SamePcs(s.reqs, s.worker.r, reqs'[s.worker.r]);
    }
  }

  lemma ShutdownCost(s: State, move: ShutdownStep)
    requires ControlInv(s) && QueueInv(s) && ShutdownCan(s, move) && move != Call
    ensures var s' := ShutdownDoes(s, move);
      && s'.worker == s.worker && s'.queue == s.queue
      && WorkerBudget(s') <= WorkerBudget(s) + (if move == Stop then 10 else 0)
      && ShutdownBudget(s') + (if move == Stop then 10 else 0) < ShutdownBudget(s)
  {
  }

  lemma ShutdownPays(s: State, move: ShutdownStep)
    requires Inv(s) && ShutdownCan(s, move) && move != Call
    ensures Budget(ShutdownDoes(s, move)) < Budget(s)
  {
    ShutdownCost(s, move);
    var reqs' := ShutdownDoes(s, move).reqs;
    if reqs' != s.reqs {
      var r := s.queue[s.shutdown.i];
      SamePcs(s.reqs, r, reqs'[r]);
    }
  }

  /** Every run without newcomers is finite: it is no longer than the budget of the state
      it starts in. */
  lemma {:induction false} RunsEnd(s: State, run: seq<Action>)
    requires Inv(s) && Follows(s, run)
    requires forall i :: 0 <= i < |run| ==> !Outside(run[i])
    ensures |run| <= Budget(s)
    decreases |run|
  {
    if run == [] {
      BudgetIsNat(s);
    } else {
      StepInv(s, run[0]);
      match run[0] {
        case Requester(r, step) => RequesterPays(s, r, step);
        case Worker(job) => WorkerPays(s, job);
        case Shutdown(move) => ShutdownPays(s, move);
      }
      RunsEnd(Apply(s, run[0]), run[1..]);
    }
  }

  /** Nothing can move but what somebody starts from outside. */
  ghost predicate AtRest(s: State) {
    forall a :: Enabled(s, a) ==> Outside(a)
  }

  lemma HolderIsInside(s: State)
    requires Inv(s)
    ensures s.ctl != Free ==> Enabled(s, HolderNext(s)) && !Outside(HolderNext(s))
  {
    if s.ctl != Free {
      HolderMoves(s);
    }
  }

  /** A shutdown that was called is over, and the worker is gone. */
  lemma ShutdownIsOver(s: State)
    requires Inv(s) && AtRest(s) && s.shutdown != NotCalled
    ensures s.shutdown == Stopped && s.worker == Exited
  {
    HolderIsInside(s);
    assert ShutdownCan(s, Lock) ==> Enabled(s, Shutdown(Lock));
    assert ShutdownCan(s, Stop) ==> Enabled(s, Shutdown(Stop));
    assert WorkerCan(s, WakeUp) ==> Enabled(s, Worker(WakeUp));
    assert WorkerCan(s, LockList) ==> Enabled(s, Worker(LockList));
  }

  /** Nobody waits for ever: whatever the interleaving, when nothing can move any more,
      which is bound to happen, every requester has finished with its answer, and a shutdown
      that was called has ended with the worker gone. */
  lemma EverybodyFinishes(s: State, run: seq<Action>)
    requires Inv(s) && Follows(s, run)
    requires forall i :: 0 <= i < |run| ==> !Outside(run[i])
    ensures |run| <= Budget(s)
    ensures AtRest(Final(s, run)) ==> forall r :: r in Final(s, run).reqs ==> Final(s, run).reqs[r].pc == Done
    ensures AtRest(Final(s, run)) && Final(s, run).shutdown != NotCalled ==>
      Final(s, run).shutdown == Stopped && Final(s, run).worker == Exited
  {
    RunsEnd(s, run);
    RunInv(s, run);
    var end := Final(s, run);
    forall r | r in end.reqs && end.reqs[r].pc != Done
      ensures exists a :: Enabled(end, a) && !Outside(a)
    {
      SomeoneCanMove(end, r);
    }
    if AtRest(end) && end.shutdown != NotCalled {
      ShutdownIsOver(end);
    }
  }
}
