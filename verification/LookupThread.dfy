/** The managed-lookup protocol of lofs as a transition system: any number of requesters, one
    worker thread and one shutdown, sharing a request list, a control mutex, one mutex and
    one flag word per request.  Every statement that another thread can observe is a step
    of its own, so a run is an arbitrary interleaving. */
module LookupThread {
  import opened Options

  type Id = nat

  /** LOFS_REQ_PROCESSED, LOFS_REQ_ZOMBIE and LOFS_REQ_ERROR. */
  datatype Flags = Flags(processed: bool, zombie: bool, error: bool)

  const ZERO := Flags(false, false, false)
  const PROCESSED := Flags(true, false, false)
  const FAILED := Flags(true, false, true)
  const ZOMBIE := Flags(false, true, false)

  datatype Owner = Free | ByWorker | ByShutdown | ByRequester(r: Id)

  /** Where `lofs_lookup_managed` is. */
  datatype RequesterPc =
    | WantCtl      // about to lock the control mutex
    | HasCtl       // holds it, has not looked at the zombie flag
    | Added        // has put its request on the list
    | Waiting      // in wait_event
    | Woken        // has seen non-zero flags, about to lock its request
    | HasReq       // holds it
    | Freeing
    | Done

  datatype Result = Pending | Ok | NoEntry | IoError

  /** A request.  `answer` is what the path lookup returned, `freed` that the memory has
      been given back. */
  datatype Req = Req(pc: RequesterPc, flags: Flags, mux: Owner, result: Result, answer: Option<bool>, freed: bool)

  /** Where `lofs_threadfn` is. */
  datatype WorkerPc =
    | Idle
    | WantList
    | HasList
    | Scan
    | WantRequest(r: Id)
    | Took(r: Id)
    | Removed(r: Id)
    | LookedUp(r: Id, ok: bool)
    | Marked(r: Id, ok: bool)
    | Finished(r: Id)
    | Exited

  /** Where `lofs_destroy_kthread` is; `i` is its place in the list. */
  datatype ShutdownPc =
    | NotCalled
    | WantLock
    | HasLock
    | Sweep(i: nat)
    | SweepHas(i: nat)
    | SweepMarked(i: nat)
    | SweepNext(i: nat)
    | Stopping
    | Stopped

  /** `submitted` and `served` record the order in which requests entered and left the
      list; `staleRead` that the sweep followed the link of a freed request. */
  datatype State = State(
    ctl: Owner, zombie: bool, stop: bool, queue: seq<Id>, reqs: map<Id, Req>,
    worker: WorkerPc, shutdown: ShutdownPc,
    submitted: seq<Id>, served: seq<Id>, staleRead: bool)

  const INIT := State(Free, false, false, [], map[], Idle, NotCalled, [], [], false)

  datatype RequesterStep =
    | Begin | LockCtl | Reject | Enqueue | UnlockCtl | Wake | LockReq | UnlockReq | FreeReq

  datatype WorkerStep =
    | WakeUp | LockList | Exit | Enter | Sleep | First | LockFirst | Remove | Skip
    | Lookup(ok: bool) | Mark | MarkError | Release

  datatype ShutdownStep =
    | Call | Lock | MarkAll | LockNext | MarkNext | UnlockNext | Next | Unlock | Stop

  datatype Action = Requester(r: Id, step: RequesterStep) | Worker(job: WorkerStep) | Shutdown(move: ShutdownStep)

  predicate At(s: State, r: Id, pc: RequesterPc) {
    r in s.reqs && s.reqs[r].pc == pc
  }

  function With(s: State, r: Id, q: Req): State {
    s.(reqs := s.reqs[r := q])
  }

  /** The list without its first occurrence of `r`. */
  function Without(queue: seq<Id>, r: Id): seq<Id> {
    if queue == [] then [] else if queue[0] == r then queue[1..] else [queue[0]] + Without(queue[1..], r)
  }

  /** What the requester returns, read off the flags under its request's mutex. */
  function ResultOf(flags: Flags): Result {
    if flags.zombie then IoError else if flags.error then NoEntry else Ok
  }

  // --------------------------------------------------- lofs_lookup_managed

  predicate RequesterCan(s: State, r: Id, step: RequesterStep) {
    match step
    case Begin => r !in s.reqs
    case LockCtl => At(s, r, WantCtl) && s.ctl == Free
    case Reject => At(s, r, HasCtl) && s.zombie
    case Enqueue => At(s, r, HasCtl) && !s.zombie
    case UnlockCtl => At(s, r, Added)
    case Wake => At(s, r, Waiting) && s.reqs[r].flags != ZERO
    case LockReq => At(s, r, Woken) && s.reqs[r].mux == Free
    case UnlockReq => At(s, r, HasReq)
    case FreeReq => At(s, r, Freeing)
  }

  function RequesterDoes(s: State, r: Id, step: RequesterStep): State
    requires RequesterCan(s, r, step)
  {
    match step
    case Begin => With(s, r, Req(WantCtl, ZERO, Free, Pending, None, false))
    case LockCtl => With(s, r, s.reqs[r].(pc := HasCtl)).(ctl := ByRequester(r))
    case Reject => With(s, r, s.reqs[r].(pc := Freeing, result := IoError)).(ctl := Free)
    case Enqueue =>
      With(s, r, s.reqs[r].(pc := Added)).(queue := s.queue + [r], submitted := s.submitted + [r])
    case UnlockCtl => With(s, r, s.reqs[r].(pc := Waiting)).(ctl := Free)
    case Wake => With(s, r, s.reqs[r].(pc := Woken))
    case LockReq => With(s, r, s.reqs[r].(pc := HasReq, mux := ByRequester(r), result := ResultOf(s.reqs[r].flags)))
    case UnlockReq => With(s, r, s.reqs[r].(pc := Freeing, mux := Free))
    case FreeReq => With(s, r, s.reqs[r].(pc := Done, freed := true))
  }

  // --------------------------------------------------------- lofs_threadfn

  predicate WorkerCan(s: State, job: WorkerStep) {
    match job
    case WakeUp => s.worker == Idle && (s.queue != [] || s.stop)
    case LockList => s.worker == WantList && s.ctl == Free
    case Exit => s.worker == HasList && s.zombie
    case Enter => s.worker == HasList && !s.zombie
    case Sleep => s.worker == Scan && s.queue == []
    case First => s.worker == Scan && s.queue != []
    case LockFirst => s.worker.WantRequest? && s.worker.r in s.reqs && s.reqs[s.worker.r].mux == Free
    case Remove => s.worker.Took? && s.worker.r in s.queue
    case Skip => s.worker.Removed? && s.worker.r in s.reqs && s.reqs[s.worker.r].flags.zombie
    case Lookup(ok) => s.worker.Removed? && s.worker.r in s.reqs && !s.reqs[s.worker.r].flags.zombie
    case Mark => s.worker.LookedUp? && s.worker.r in s.reqs
    case MarkError => s.worker.Marked? && s.worker.r in s.reqs
    case Release => s.worker.Finished? && s.worker.r in s.reqs
  }

  function WorkerDoes(s: State, job: WorkerStep): State
    requires WorkerCan(s, job)
  {
    match job
    case WakeUp => s.(worker := WantList)
    case LockList => s.(worker := HasList, ctl := ByWorker)
    case Exit => s.(worker := Exited, ctl := Free)
    case Enter => s.(worker := Scan)
    case Sleep => s.(worker := Idle, ctl := Free)
    case First => s.(worker := WantRequest(s.queue[0]))
    case LockFirst => With(s, s.worker.r, s.reqs[s.worker.r].(mux := ByWorker)).(worker := Took(s.worker.r))
    case Remove =>
      s.(queue := Without(s.queue, s.worker.r), served := s.served + [s.worker.r], worker := Removed(s.worker.r))
    case Skip => s.(worker := Finished(s.worker.r))
    case Lookup(ok) =>
      With(s, s.worker.r, s.reqs[s.worker.r].(answer := Some(ok))).(worker := LookedUp(s.worker.r, ok))
    case Mark =>
      With(s, s.worker.r, s.reqs[s.worker.r].(flags := s.reqs[s.worker.r].flags.(processed := true)))
        .(worker := Marked(s.worker.r, s.worker.ok))
    case MarkError =>
      var flags := s.reqs[s.worker.r].flags;
      With(s, s.worker.r, s.reqs[s.worker.r].(flags := if s.worker.ok then flags else flags.(error := true)))
        .(worker := Finished(s.worker.r))
    case Release => With(s, s.worker.r, s.reqs[s.worker.r].(mux := Free)).(worker := Scan)
  }

  // --------------------------------------------------- lofs_destroy_kthread

  /** The request at the sweep's place in the list. */
  predicate AtRequest(s: State, i: nat) {
    i < |s.queue| && s.queue[i] in s.reqs
  }

  predicate ShutdownCan(s: State, move: ShutdownStep) {
    match move
    case Call => s.shutdown == NotCalled
    case Lock => s.shutdown == WantLock && s.ctl == Free
    case MarkAll => s.shutdown == HasLock
    case LockNext => s.shutdown.Sweep? && AtRequest(s, s.shutdown.i) && s.reqs[s.queue[s.shutdown.i]].mux == Free
    case MarkNext => s.shutdown.SweepHas? && AtRequest(s, s.shutdown.i)
    case UnlockNext => s.shutdown.SweepMarked? && AtRequest(s, s.shutdown.i)
    case Next => s.shutdown.SweepNext? && AtRequest(s, s.shutdown.i)
    case Unlock => s.shutdown.Sweep? && s.shutdown.i >= |s.queue|
    case Stop => s.shutdown == Stopping
  }

  function ShutdownDoes(s: State, move: ShutdownStep): State
    requires ShutdownCan(s, move)
  {
    match move
    case Call => s.(shutdown := WantLock)
    case Lock => s.(shutdown := HasLock, ctl := ByShutdown)
    case MarkAll => s.(shutdown := Sweep(0), zombie := true)
    case LockNext =>
      var r := s.queue[s.shutdown.i];
      With(s, r, s.reqs[r].(mux := ByShutdown)).(shutdown := SweepHas(s.shutdown.i))
    case MarkNext =>
      var r := s.queue[s.shutdown.i];
      With(s, r, s.reqs[r].(flags := s.reqs[r].flags.(zombie := true))).(shutdown := SweepMarked(s.shutdown.i))
    case UnlockNext =>
      var r := s.queue[s.shutdown.i];
      With(s, r, s.reqs[r].(mux := Free)).(shutdown := SweepNext(s.shutdown.i))
    case Next =>
      s.(shutdown := Sweep(s.shutdown.i + 1), staleRead := s.staleRead || s.reqs[s.queue[s.shutdown.i]].freed)
    case Unlock => s.(shutdown := Stopping, ctl := Free)
    case Stop => s.(shutdown := Stopped, stop := true)
  }

  predicate Enabled(s: State, a: Action) {
    match a
    case Requester(r, step) => RequesterCan(s, r, step)
    case Worker(job) => WorkerCan(s, job)
    case Shutdown(move) => ShutdownCan(s, move)
  }

  function Apply(s: State, a: Action): State
    requires Enabled(s, a)
  {
    match a
    case Requester(r, step) => RequesterDoes(s, r, step)
    case Worker(job) => WorkerDoes(s, job)
    case Shutdown(move) => ShutdownDoes(s, move)
  }

  // -------------------------------------------------------------------- the invariant

  /** The request the worker has taken off or is taking off the list. */
  predicate WorkerOwns(s: State, r: Id) {
    match s.worker
    case Took(w) => w == r
    case Removed(w) => w == r
    case LookedUp(w, _) => w == r
    case Marked(w, _) => w == r
    case Finished(w) => w == r
    case _ => false
  }

  predicate WorkerHasCtl(s: State) {
    s.worker.HasList? || s.worker.Scan? || s.worker.WantRequest? || s.worker.Took? || s.worker.Removed?
    || s.worker.LookedUp? || s.worker.Marked? || s.worker.Finished?
  }

  predicate ShutdownHasCtl(s: State) {
    s.shutdown.HasLock? || s.shutdown.Sweep? || s.shutdown.SweepHas? || s.shutdown.SweepMarked? || s.shutdown.SweepNext?
  }

  /** The sweep has marked the request at place `i`. */
  predicate Swept(s: State, i: nat) {
    match s.shutdown
    case Sweep(j) => i < j
    case SweepHas(j) => i < j
    case SweepMarked(j) => i <= j
    case SweepNext(j) => i <= j
    case Stopping => true
    case Stopped => true
    case _ => false
  }

  /** Control mutex, shutdown and worker agree. */
  ghost predicate ControlInv(s: State) {
    && (s.ctl == ByWorker <==> WorkerHasCtl(s))
    && (s.ctl == ByShutdown <==> ShutdownHasCtl(s))
    && (s.ctl.ByRequester? ==> At(s, s.ctl.r, HasCtl) || At(s, s.ctl.r, Added))
    && (s.zombie <==> !(s.shutdown.NotCalled? || s.shutdown.WantLock? || s.shutdown.HasLock?))
    && (s.stop <==> s.shutdown.Stopped?)
    && (s.zombie ==> s.worker.Idle? || s.worker.WantList? || s.worker.HasList? || s.worker.Exited?)
    && (s.worker.Exited? ==> s.zombie)
  }

  ghost predicate NoRepeats(ids: seq<Id>) {
    forall i, j :: 0 <= i < j < |ids| ==> ids[i] != ids[j]
  }

  /** List, histories, worker and sweep agree. */
  ghost predicate QueueInv(s: State) {
    && s.submitted == s.served + s.queue
    && NoRepeats(s.submitted)
    && (forall i :: 0 <= i < |s.served| ==> s.served[i] in s.reqs)
    && (forall i :: 0 <= i < |s.queue| ==>
          && s.queue[i] in s.reqs
          && s.reqs[s.queue[i]].flags == (if Swept(s, i) then ZOMBIE else ZERO)
          && s.reqs[s.queue[i]].answer == None)
    && (s.worker.WantRequest? || s.worker.Took? ==> s.queue != [] && s.queue[0] == s.worker.r)
    && (s.worker.Removed? || s.worker.LookedUp? || s.worker.Marked? || s.worker.Finished? ==> s.worker.r in s.served)
    && (s.shutdown.SweepHas? || s.shutdown.SweepMarked? || s.shutdown.SweepNext? ==> s.shutdown.i < |s.queue|)
    && (s.shutdown.Sweep? ==> s.shutdown.i <= |s.queue|)
  }

  /** One request: its mutex, and what its flags mean at each place of its life. */
  ghost predicate ReqInv(s: State, r: Id)
    requires r in s.reqs
  {
    var q := s.reqs[r];
    && (q.mux == ByWorker <==> WorkerOwns(s, r))
    && (q.mux == ByShutdown <==>
          (s.shutdown.SweepHas? || s.shutdown.SweepMarked?) && s.shutdown.i < |s.queue| && s.queue[s.shutdown.i] == r)
    && (q.mux.ByRequester? <==> q.pc == HasReq)
    && (q.pc == HasCtl || q.pc == Added ==> s.ctl == ByRequester(r))
    && (q.pc == WantCtl || q.pc == HasCtl ==> r !in s.submitted)
    && (q.pc == Added || q.pc == Waiting || q.pc == Woken || q.pc == HasReq ==> r in s.submitted)
    && (q.freed <==> q.pc == Done)
    && (r !in s.submitted ==>
          && q.flags == ZERO && q.answer == None
          && q.result == if q.pc == Freeing || q.pc == Done then IoError else Pending)
    && (r in s.submitted ==>
          && (q.pc == Woken || q.pc == HasReq || q.pc == Freeing || q.pc == Done ==> q.flags != ZERO)
          && (q.pc == HasReq || q.pc == Freeing || q.pc == Done ==>
                !WorkerOwns(s, r) && q.mux != ByShutdown && q.result == ResultOf(q.flags))
          && (q.pc == Added || q.pc == Waiting || q.pc == Woken ==> q.result == Pending))
    && (r in s.served ==>
          match s.worker
          case Removed(w) => w == r ==> q.flags == ZERO && q.answer == None
          case LookedUp(w, ok) => w == r ==> q.flags == ZERO && q.answer == Some(ok)
          case Marked(w, ok) => w == r ==> q.flags == PROCESSED && q.answer == Some(ok)
          case _ => true)
    && (r in s.served && !(s.worker.Removed? && s.worker.r == r) && !(s.worker.LookedUp? && s.worker.r == r)
        && !(s.worker.Marked? && s.worker.r == r) ==>
          q.answer.Some? && q.flags == if q.answer.value then PROCESSED else FAILED)
  }

  ghost predicate Inv(s: State) {
    && ControlInv(s)
    && QueueInv(s)
    && (forall r :: r in s.reqs ==> ReqInv(s, r))
  }

  lemma InitInv()
    ensures Inv(INIT)
  {
  }


  // ------------------------------------------------------------ it is preserved

  /** No request is twice on the list, nor on it after it has been served. */
  lemma Distinct(s: State)
    requires QueueInv(s)
    ensures NoRepeats(s.queue)
    ensures forall r :: r in s.served ==> r !in s.queue
    ensures forall r :: r in s.submitted <==> r in s.served || r in s.queue
  {
    forall i, j | 0 <= i < j < |s.queue|
      ensures s.queue[i] != s.queue[j]
    {
      assert s.submitted[|s.served| + i] != s.submitted[|s.served| + j];
    }
    forall i, j | 0 <= i < |s.served| && 0 <= j < |s.queue|
      ensures s.served[i] != s.queue[j]
    {
      assert s.submitted[i] != s.submitted[|s.served| + j];
    }
  }

  /** The request the sweep is at, if it is at one. */
  predicate SweepAt(s: State, r: Id) {
    (s.shutdown.Sweep? || s.shutdown.SweepHas? || s.shutdown.SweepMarked? || s.shutdown.SweepNext?)
    && s.shutdown.i < |s.queue| && s.queue[s.shutdown.i] == r
  }

  /** A step that leaves a request, its place and its owners alone leaves its invariant. */
  lemma ReqFrame(s: State, s': State, x: Id)
    requires x in s.reqs && x in s'.reqs && s'.reqs[x] == s.reqs[x] && ReqInv(s, x)
    requires x in s'.submitted <==> x in s.submitted
    requires x in s'.served <==> x in s.served
    requires x in s'.queue <==> x in s.queue
    requires s.ctl == ByRequester(x) ==> s'.ctl == s.ctl
    requires s'.worker == s.worker || (!WorkerOwns(s, x) && !WorkerOwns(s', x))
    requires SweepAt(s, x) <==> SweepAt(s', x)
    requires SweepAt(s, x) ==> s'.shutdown == s.shutdown
    ensures ReqInv(s', x)
  {
  }

  /** Control, list and the one request a step is about: all a step needs to know. */
  ghost predicate Around(s: State, r: Id) {
    ControlInv(s) && QueueInv(s) && (r in s.reqs ==> ReqInv(s, r))
  }

  // requesters

  predicate Early(step: RequesterStep) {
    step.Begin? || step.LockCtl? || step.Reject? || step.Enqueue? || step.UnlockCtl?
  }

  lemma RequesterControl(s: State, r: Id, step: RequesterStep)
    requires Around(s, r) && RequesterCan(s, r, step)
    ensures ControlInv(RequesterDoes(s, r, step))
  {
  }

  lemma RequesterQueue(s: State, r: Id, step: RequesterStep)
    requires Around(s, r) && RequesterCan(s, r, step) && step != Enqueue
    ensures QueueInv(RequesterDoes(s, r, step))
  {
  }

  lemma EnqueueQueue(s: State, r: Id)
    requires Around(s, r) && RequesterCan(s, r, Enqueue)
    ensures QueueInv(RequesterDoes(s, r, Enqueue))
  {
  }

  lemma RequesterEarly(s: State, r: Id, step: RequesterStep)
    requires Around(s, r) && RequesterCan(s, r, step) && Early(step)
    ensures ReqInv(RequesterDoes(s, r, step), r)
  {
    Distinct(s);
  }

  lemma RequesterLate(s: State, r: Id, step: RequesterStep)
    requires Around(s, r) && RequesterCan(s, r, step) && !Early(step)
    ensures ReqInv(RequesterDoes(s, r, step), r)
  {
    Distinct(s);
  }

  lemma RequesterOther(s: State, r: Id, step: RequesterStep, x: Id)
    requires Around(s, r) && RequesterCan(s, r, step) && x != r && x in s.reqs && ReqInv(s, x)
    ensures ReqInv(RequesterDoes(s, r, step), x)
  {
    ReqFrame(s, RequesterDoes(s, r, step), x);
  }

  // worker

  /** The request the worker is busy with. */
  function Busy(s: State): Option<Id> {
    match s.worker
    case WantRequest(r) => Some(r)
    case Took(r) => Some(r)
    case Removed(r) => Some(r)
    case LookedUp(r, _) => Some(r)
    case Marked(r, _) => Some(r)
    case Finished(r) => Some(r)
    case _ => None
  }

  ghost predicate AroundWorker(s: State) {
    ControlInv(s) && QueueInv(s) && (Busy(s).Some? ==> Busy(s).value in s.reqs && ReqInv(s, Busy(s).value))
  }

  lemma WorkerControl(s: State, job: WorkerStep)
    requires AroundWorker(s) && WorkerCan(s, job)
    ensures ControlInv(WorkerDoes(s, job))
  {
  }

  lemma WorkerQueue(s: State, job: WorkerStep)
    requires AroundWorker(s) && WorkerCan(s, job) && job != Remove
    ensures QueueInv(WorkerDoes(s, job))
  {
    Distinct(s);
    if TouchesRequest(job) {
      WorkerQueueRequest(s, job);
    }
  }

  /** The steps that change the request the worker is busy with. */
  predicate TouchesRequest(job: WorkerStep) {
    job.LockFirst? || job.Lookup? || job.Mark? || job.MarkError? || job.Release?
  }

  lemma WorkerQueueRequest(s: State, job: WorkerStep)
    requires AroundWorker(s) && WorkerCan(s, job) && TouchesRequest(job)
    ensures QueueInv(WorkerDoes(s, job))
  {
    Distinct(s);
    assert !job.LockFirst? ==> s.worker.r in s.served && s.worker.r !in s.queue;
  }

  lemma RemoveQueue(s: State)
    requires AroundWorker(s) && WorkerCan(s, Remove)
    ensures QueueInv(WorkerDoes(s, Remove))
    ensures Without(s.queue, s.worker.r) == s.queue[1..]
  {
    assert s.served + s.queue == s.served + [s.worker.r] + s.queue[1..];
  }

  lemma WorkerOwn(s: State, job: WorkerStep)
    requires AroundWorker(s) && WorkerCan(s, job) && Busy(s).Some?
    ensures ReqInv(WorkerDoes(s, job), Busy(s).value)
  {
    Distinct(s);
    if job == Remove {
      RemoveQueue(s);
      Distinct(WorkerDoes(s, job));
    }
  }

  lemma WorkerOther(s: State, job: WorkerStep, x: Id)
    requires AroundWorker(s) && WorkerCan(s, job) && Busy(s) != Some(x) && x in s.reqs && ReqInv(s, x)
    ensures ReqInv(WorkerDoes(s, job), x)
  {
    if job == Remove {
      RemoveOther(s, x);
    } else {
      ReqFrame(s, WorkerDoes(s, job), x);
    }
  }

  lemma RemoveOther(s: State, x: Id)
    requires AroundWorker(s) && WorkerCan(s, Remove) && Busy(s) != Some(x) && x in s.reqs && ReqInv(s, x)
    ensures ReqInv(WorkerDoes(s, Remove), x)
  {
    RemoveQueue(s);
    ReqFrame(s, WorkerDoes(s, Remove), x);
  }

  // shutdown

  lemma ShutdownControl(s: State, move: ShutdownStep)
    requires ControlInv(s) && ShutdownCan(s, move)
    ensures ControlInv(ShutdownDoes(s, move))
  {
  }

  lemma ShutdownQueue(s: State, move: ShutdownStep)
    requires ControlInv(s) && QueueInv(s) && ShutdownCan(s, move)
    ensures QueueInv(ShutdownDoes(s, move))
  {
    Distinct(s);
  }

  lemma ShutdownOwn(s: State, move: ShutdownStep, x: Id)
    requires Around(s, x) && ShutdownCan(s, move) && SweepAt(s, x) && x in s.reqs
    ensures ReqInv(ShutdownDoes(s, move), x)
  {
    Distinct(s);
  }

  lemma ShutdownOther(s: State, move: ShutdownStep, x: Id)
    requires Around(s, x) && ShutdownCan(s, move) && !SweepAt(s, x) && x in s.reqs
    ensures ReqInv(ShutdownDoes(s, move), x)
  {
  }

  lemma RequesterInv(s: State, r: Id, step: RequesterStep)
    requires Inv(s) && RequesterCan(s, r, step)
    ensures Inv(RequesterDoes(s, r, step))
  {
    RequesterControl(s, r, step);
    if step == Enqueue { EnqueueQueue(s, r); } else { RequesterQueue(s, r, step); }
    var s' := RequesterDoes(s, r, step);
    forall x | x in s'.reqs
      ensures ReqInv(s', x)
    {
      if x != r { RequesterOther(s, r, step, x); }
      else if Early(step) { RequesterEarly(s, r, step); }
      else { RequesterLate(s, r, step); }
    }
  }

  lemma WorkerInv(s: State, job: WorkerStep)
    requires Inv(s) && WorkerCan(s, job)
    ensures Inv(WorkerDoes(s, job))
  {
    WorkerControl(s, job);
    if job == Remove { RemoveQueue(s); } else { WorkerQueue(s, job); }
    var s' := WorkerDoes(s, job);
    forall x | x in s'.reqs
      ensures ReqInv(s', x)
    {
      if Busy(s) == Some(x) { WorkerOwn(s, job); } else { WorkerOther(s, job, x); }
    }
  }

  lemma ShutdownInv(s: State, move: ShutdownStep)
    requires Inv(s) && ShutdownCan(s, move)
    ensures Inv(ShutdownDoes(s, move))
  {
    ShutdownControl(s, move);
    ShutdownQueue(s, move);
    var s' := ShutdownDoes(s, move);
    forall x | x in s'.reqs
      ensures ReqInv(s', x)
    {
      if SweepAt(s, x) { ShutdownOwn(s, move, x); } else { ShutdownOther(s, move, x); }
    }
  }

  /** Every step of every thread keeps the invariant. */
  lemma StepInv(s: State, a: Action)
    requires Inv(s) && Enabled(s, a)
    ensures Inv(Apply(s, a))
  {
    match a {
      case Requester(r, step) => RequesterInv(s, r, step);
      case Worker(job) => WorkerInv(s, job);
      case Shutdown(move) => ShutdownInv(s, move);
    }
  }
}
