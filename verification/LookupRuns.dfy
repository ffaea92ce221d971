/** What the managed-lookup protocol guarantees over whole runs: for every interleaving of
    any number of requesters, the worker and one shutdown. */
module LookupRuns {
  import opened LookupThread
  import opened Options

  /** The actions can be taken one after the other, starting in `s`. */
  ghost predicate Follows(s: State, run: seq<Action>)
    decreases |run|
  {
    run != [] ==> Enabled(s, run[0]) && Follows(Apply(s, run[0]), run[1..])
  }

  ghost function Final(s: State, run: seq<Action>): State
    requires Follows(s, run)
    decreases |run|
  {
    if run == [] then s else Final(Apply(s, run[0]), run[1..])
  }

  lemma {:induction false} RunInv(s: State, run: seq<Action>)
    requires Inv(s) && Follows(s, run)
    ensures Inv(Final(s, run))
    decreases |run|
  {
    if run != [] {
      StepInv(s, run[0]);
      RunInv(Apply(s, run[0]), run[1..]);
    }
  }

  // ------------------------------------------------------------------------- flags

  /** A flag word stays what it is, leaves zero, or gains the error bit while the worker
      still holds the request. */
  ghost predicate FlagsMove(s: State, s': State, r: Id)
    requires r in s.reqs && r in s'.reqs
  {
    var f, f' := s.reqs[r].flags, s'.reqs[r].flags;
    f == ZERO || f' == f || (f == PROCESSED && f' == FAILED && s.reqs[r].mux == ByWorker)
  }

  lemma FlagsOfReq(s: State, r: Id)
    requires Inv(s) && r in s.reqs
    ensures s.reqs[r].flags in {ZERO, PROCESSED, FAILED, ZOMBIE}
  {
    Distinct(s);
    if r in s.queue {
      var i :| 0 <= i < |s.queue| && s.queue[i] == r;
    }
  }

  lemma FlagsRequester(s: State, r: Id, step: RequesterStep, x: Id)
    requires Around(s, r) && RequesterCan(s, r, step) && x in s.reqs
    ensures x in RequesterDoes(s, r, step).reqs && FlagsMove(s, RequesterDoes(s, r, step), x)
    ensures s.reqs[x].mux != ByWorker ==> RequesterDoes(s, r, step).reqs[x].mux != ByWorker
  {
  }

  lemma FlagsWorker(s: State, job: WorkerStep, x: Id)
    requires AroundWorker(s) && WorkerCan(s, job) && x in s.reqs && ReqInv(s, x)
    ensures x in WorkerDoes(s, job).reqs && FlagsMove(s, WorkerDoes(s, job), x)
  {
  }

  lemma WorkerTakes(s: State, job: WorkerStep, x: Id)
    requires AroundWorker(s) && WorkerCan(s, job) && x in s.reqs && ReqInv(s, x)
    requires s.reqs[x].mux != ByWorker && s.reqs[x].flags != ZERO
    ensures WorkerDoes(s, job).reqs[x].mux != ByWorker
  {
  }

  lemma FlagsShutdown(s: State, move: ShutdownStep, x: Id)
    requires Around(s, x) && ShutdownCan(s, move) && x in s.reqs
    ensures x in ShutdownDoes(s, move).reqs && FlagsMove(s, ShutdownDoes(s, move), x)
    ensures s.reqs[x].mux != ByWorker ==> ShutdownDoes(s, move).reqs[x].mux != ByWorker
  {
  }

  lemma FlagsStep(s: State, a: Action, x: Id)
    requires Inv(s) && Enabled(s, a) && x in s.reqs
    ensures x in Apply(s, a).reqs && FlagsMove(s, Apply(s, a), x)
    ensures s.reqs[x].mux != ByWorker && s.reqs[x].flags != ZERO ==> Apply(s, a).reqs[x].mux != ByWorker
  {
    match a {
      case Requester(r, step) => FlagsRequester(s, r, step, x);
      case Worker(job) =>
        FlagsWorker(s, job, x);
        if s.reqs[x].mux != ByWorker && s.reqs[x].flags != ZERO {
          WorkerTakes(s, job, x);
        }
      case Shutdown(move) => FlagsShutdown(s, move, x);
    }
  }

  /** Over any run, a request's flags leave zero at most once: whatever was seen there is
      still there at the end, except that PROCESSED may become PROCESSED with an error if
      the worker was still holding the request.  No other values ever occur. */
  lemma {:induction false} FlagsLeaveZeroOnce(s: State, run: seq<Action>, r: Id)
    requires Inv(s) && Follows(s, run) && r in s.reqs
    ensures r in Final(s, run).reqs && FlagsMove(s, Final(s, run), r)
    ensures Final(s, run).reqs[r].flags in {ZERO, PROCESSED, FAILED, ZOMBIE}
    decreases |run|
  {
    if run == [] {
      FlagsOfReq(s, r);
    } else {
      FlagsStep(s, run[0], r);
      StepInv(s, run[0]);
      FlagsLeaveZeroOnce(Apply(s, run[0]), run[1..], r);
    }
  }

  /** What a finished requester returns is what happened to its request: success or
      ENOENT as the path lookup answered, EIO exactly if it was never looked up. */
  lemma ResultIsFaithful(s: State, r: Id)
    requires Inv(s) && r in s.reqs && s.reqs[r].pc == Done
    ensures s.reqs[r].result == match s.reqs[r].answer
      case Some(true) => Ok
      case Some(false) => NoEntry
      case None => IoError
  {
    Distinct(s);
    if r in s.queue {
      var i :| 0 <= i < |s.queue| && s.queue[i] == r;
    }
  }

  // ------------------------------------------------------------------- list and order

  /** The list only changes by `list_add_tail` and `list_del`, neither of them once the
      zombie flag is up. */
  ghost predicate ListMove(s: State, s': State) {
    && s.submitted <= s'.submitted && s.served <= s'.served
    && (s.zombie ==> s'.zombie && s'.submitted == s.submitted && s'.served == s.served && s'.queue == s.queue)
  }

  lemma ListStep(s: State, a: Action)
    requires ControlInv(s) && Enabled(s, a)
    ensures ListMove(s, Apply(s, a))
  {
    match a {
      case Requester(r, step) => assert ListMove(s, RequesterDoes(s, r, step));
      case Worker(job) => assert ListMove(s, WorkerDoes(s, job));
      case Shutdown(move) => assert ListMove(s, ShutdownDoes(s, move));
    }
  }

  /** Requests are taken off the list in the order they were put on it, each once. */
  lemma {:induction false} ServedInOrder(s: State, run: seq<Action>)
    requires Inv(s) && Follows(s, run)
    ensures s.submitted <= Final(s, run).submitted && s.served <= Final(s, run).served
    ensures Final(s, run).served <= Final(s, run).submitted && NoRepeats(Final(s, run).submitted)
    decreases |run|
  {
    if run != [] {
      ListStep(s, run[0]);
      StepInv(s, run[0]);
      ServedInOrder(Apply(s, run[0]), run[1..]);
    }
  }

  /** Once shutdown has marked the list, nothing is put on it or taken off it any more. */
  lemma {:induction false} NothingQueuedAfterShutdown(s: State, run: seq<Action>)
    requires Inv(s) && Follows(s, run) && s.zombie
    ensures Final(s, run).zombie && Final(s, run).queue == s.queue
    ensures Final(s, run).submitted == s.submitted && Final(s, run).served == s.served
    decreases |run|
  {
    if run != [] {
      ListStep(s, run[0]);
      StepInv(s, run[0]);
      NothingQueuedAfterShutdown(Apply(s, run[0]), run[1..]);
    }
  }

  /** Once shutdown has let go of the list, every request it ever accepted has flags its
      requester is waiting for.  The sweep must not have followed the link of a freed request:
      after that the program may be anywhere. */
  lemma NobodyStranded(s: State, r: Id)
    requires Inv(s) && !s.staleRead && (s.shutdown.Stopping? || s.shutdown.Stopped?) && r in s.submitted
    ensures r in s.reqs && s.reqs[r].flags != ZERO
    ensures s.reqs[r].pc == Waiting ==> Enabled(s, Requester(r, Wake))
  {
    Distinct(s);
    if r in s.queue {
      var i :| 0 <= i < |s.queue| && s.queue[i] == r;
    }
  }

  // --------------------------------------------------------------------- memory

  /** A freed request is never again touched by the worker, nor locked or marked by the
      sweep; and until shutdown marks the list it is not on it. */
  lemma FreedIsLeftAlone(s: State, r: Id)
    requires Inv(s) && r in s.reqs && s.reqs[r].freed
    ensures Busy(s) != Some(r)
    ensures SweepAt(s, r) ==> !s.shutdown.SweepHas? && !s.shutdown.SweepMarked?
    ensures !s.zombie ==> r !in s.queue
  {
    Distinct(s);
    if r in s.queue {
      var i :| 0 <= i < |s.queue| && s.queue[i] == r;
      assert Swept(s, i);
    }
    assert !WorkerOwns(s, r);
  }

  lemma {:induction false} NoStaleReadBeforeShutdown(s: State, run: seq<Action>)
    requires Inv(s) && !s.staleRead && Follows(s, run) && !Final(s, run).zombie
    ensures !Final(s, run).staleRead
    decreases |run|
  {
    if run != [] {
      StepInv(s, run[0]);
      if s.zombie {
        NothingQueuedAfterShutdown(s, run);
      }
      NoStaleReadBeforeShutdown(Apply(s, run[0]), run[1..]);
    }
  }

  /** `s` can be reached from the initial state. */
  ghost predicate Reachable(s: State) {
    exists run: seq<Action> :: Follows(INIT, run) && Final(INIT, run) == s
  }

  lemma {:induction false} FollowsOneMore(s: State, run: seq<Action>, a: Action)
    requires Follows(s, run) && Enabled(Final(s, run), a)
    ensures Follows(s, run + [a]) && Final(s, run + [a]) == Apply(Final(s, run), a)
    decreases |run|
  {
    if run == [] {
      assert run + [a] == [a];
    } else {
      FollowsOneMore(Apply(s, run[0]), run[1..], a);
      assert (run + [a])[1..] == run[1..] + [a];
    }
  }

  lemma ReachNext(s: State, a: Action) returns (s': State)
    requires Reachable(s) && Enabled(s, a)
    ensures Reachable(s') && s' == Apply(s, a)
  {
    s' := Apply(s, a);
    var run: seq<Action> :| Follows(INIT, run) && Final(INIT, run) == s;
    FollowsOneMore(INIT, run, a);
  }

  lemma ReachableInv(s: State)
    requires Reachable(s)
    ensures Inv(s)
  {
    var run: seq<Action> :| Follows(INIT, run) && Final(INIT, run) == s;
    InitInv();
    RunInv(INIT, run);
  }

  lemma OneWaits() returns (s: State)
    ensures Reachable(s)
    ensures s == INIT.(queue := [0], submitted := [0], reqs := map[0 := Req(Waiting, ZERO, Free, Pending, None, false)])
  {
    assert Follows(INIT, []) && Final(INIT, []) == INIT;
    s := ReachNext(INIT, Requester(0, Begin));
    s := ReachNext(s, Requester(0, LockCtl));
    s := ReachNext(s, Requester(0, Enqueue));
    s := ReachNext(s, Requester(0, UnlockCtl));
  }

  lemma OneIsSwept() returns (s: State)
    ensures Reachable(s)
    ensures s == INIT.(queue := [0], submitted := [0], reqs := map[0 := Req(Waiting, ZOMBIE, Free, Pending, None, false)],
                       ctl := ByShutdown, zombie := true, shutdown := SweepNext(0))
  {
    s := OneWaits();
    s := ReachNext(s, Shutdown(Call));
    s := ReachNext(s, Shutdown(Lock));
    s := ReachNext(s, Shutdown(MarkAll));
    s := ReachNext(s, Shutdown(LockNext));
    s := ReachNext(s, Shutdown(MarkNext));
    s := ReachNext(s, Shutdown(UnlockNext));
  }

  /** The sweep does not take requests off the list, so it can follow the link of one whose
      requester has woken up and freed it in between. */
  lemma SweepCanReadFreed() returns (s: State)
    ensures Reachable(s) && s.staleRead
    ensures s.queue == [0] && s.reqs == map[0 := Req(Done, ZOMBIE, Free, IoError, None, true)]
  {
    s := OneIsSwept();
    s := ReachNext(s, Requester(0, Wake));
    s := ReachNext(s, Requester(0, LockReq));
    s := ReachNext(s, Requester(0, UnlockReq));
    s := ReachNext(s, Requester(0, FreeReq));
    s := ReachNext(s, Shutdown(Next));
  }

  // ------------------------------------------- when the sweep follows a freed link

  /** A run from `s` that ends in `t`. */
  ghost predicate Leads(s: State, run: seq<Action>, t: State) {
    Follows(s, run) && Final(s, run) == t
  }

  lemma LeadsOn(s: State, run: seq<Action>, t: State, a: Action) returns (run': seq<Action>, t': State)
    requires Leads(s, run, t) && Enabled(t, a)
    ensures Leads(s, run', t') && t' == Apply(t, a)
  {
    run', t' := run + [a], Apply(t, a);
    FollowsOneMore(s, run, a);
  }

  /** While shutdown holds the list and has not marked it, everything on it is waiting and
      nobody holds its mutex. */
  lemma ListedWaits(s: State, r: Id)
    requires Inv(s) && s.shutdown == HasLock && r in s.queue
    ensures r in s.reqs && s.reqs[r].pc == Waiting && s.reqs[r].mux == Free
  {
    Distinct(s);
    var i :| 0 <= i < |s.queue| && s.queue[i] == r;
    assert ReqInv(s, r);
  }

  /** The sweep marks the first request and stops in front of its link. */
  lemma SweepFirst(s: State) returns (run: seq<Action>, t: State)
    requires Inv(s) && s.shutdown == HasLock && s.queue != []
    ensures Leads(s, run, t) && t.shutdown == SweepNext(0) && t.queue == s.queue
    ensures At(t, s.queue[0], Waiting) && t.reqs[s.queue[0]].mux == Free && t.reqs[s.queue[0]].flags.zombie
  {
    ListedWaits(s, s.queue[0]);
    run, t := [], s;
    run, t := LeadsOn(s, run, t, Shutdown(MarkAll));
    run, t := LeadsOn(s, run, t, Shutdown(LockNext));
    run, t := LeadsOn(s, run, t, Shutdown(MarkNext));
    run, t := LeadsOn(s, run, t, Shutdown(UnlockNext));
  }

  /** Its requester wakes up and frees it before the sweep goes on. */
  lemma OwnerFrees(s: State, before: seq<Action>, t: State, r: Id) returns (run: seq<Action>, u: State)
    requires Leads(s, before, t) && t.shutdown == SweepNext(0) && t.queue != [] && r == t.queue[0]
    requires At(t, r, Waiting) && t.reqs[r].mux == Free && t.reqs[r].flags.zombie
    ensures Leads(s, run, u) && u.staleRead
  {
    run, u := before, t;
    run, u := LeadsOn(s, run, u, Requester(r, Wake));
    run, u := LeadsOn(s, run, u, Requester(r, LockReq));
    run, u := LeadsOn(s, run, u, Requester(r, UnlockReq));
    run, u := LeadsOn(s, run, u, Requester(r, FreeReq));
    run, u := LeadsOn(s, run, u, Shutdown(Next));
  }

  /** The list is empty and stays so. */
  ghost predicate NothingToSweep(s: State) {
    Inv(s) && !s.staleRead && s.queue == [] && (s.zombie || s.shutdown == HasLock)
  }

  lemma {:induction false} NothingIsSwept(s: State, run: seq<Action>)
    requires NothingToSweep(s) && Follows(s, run)
    ensures !Final(s, run).staleRead
    decreases |run|
  {
    if run != [] {
      var s' := Apply(s, run[0]);
      StepInv(s, run[0]);
      ListStep(s, run[0]);
      assert NothingToSweep(s') by {
        NothingStep(s, run[0]);
      }
      NothingIsSwept(s', run[1..]);
    }
  }

  lemma NothingStep(s: State, a: Action)
    requires NothingToSweep(s) && Enabled(s, a)
    ensures var s' := Apply(s, a); s'.queue == [] && !s'.staleRead && (s'.zombie || s'.shutdown == HasLock)
  {
    if a.Requester? && a.r in s.reqs {
      assert ReqInv(s, a.r);
    }
  }

  /** A run in which the sweep follows the link of a freed request. */
  ghost predicate GoesStale(s: State, run: seq<Action>) {
    Follows(s, run) && Final(s, run).staleRead
  }

  /** The sweep can follow the link of a freed request exactly when the list is not empty at
      the time shutdown locks it. */
  lemma StaleReadExactly(s: State)
    requires Inv(s) && s.shutdown == HasLock && !s.staleRead
    ensures (exists run :: GoesStale(s, run)) <==> s.queue != []
  {
    if s.queue == [] {
      forall run | Follows(s, run)
        ensures !GoesStale(s, run)
      {
        NothingIsSwept(s, run);
      }
    } else {
      var before, t := SweepFirst(s);
      var run, u := OwnerFrees(s, before, t, s.queue[0]);
      assert GoesStale(s, run);
    }
  }
}
