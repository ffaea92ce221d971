/** The agent utilization report: each agent's jobs merged into intervals, the intervals'
    ends sorted into one list of events, and a sweep that measures for how long how many
    agents were in use. */
module AgentUtilization {

  datatype Job = Job(start: real, finish: real)

  /** A merged interval; `START` and `FINISH` below are the two event types. */
  datatype Interval = Interval(start: real, finish: real)

  datatype Event = Event(t: real, e: int)

  const START := 1
  const FINISH := -1

  // ------------------------------------------------------------------------ merging

  /** Tcl's `int`: truncation towards zero. */
  function TclInt(x: real): int {
    if x >= 0.0 then x.Floor else -(-x).Floor
  }

  predicate Continues(finish: real, start: real) {
    TclInt(start * 100.0) <= TclInt(finish * 100.0)
  }

  /** The end of hundredth number `n` of a second. */
  function Hundredth(n: int): real {
    n as real / 100.0
  }

  /** A new hundredth of a second begins behind `finish` and no later than `start`. */
  ghost predicate Apart(finish: real, start: real) {
    exists n: int :: finish < Hundredth(n) <= start
  }

  /** A job continues the interval under way exactly unless a new hundredth has begun. */
  lemma ContinuesExactly(finish: real, start: real)
    requires 0.0 <= finish && 0.0 <= start
    ensures Continues(finish, start) <==> !Apart(finish, start)
  {
    if Apart(finish, start) {
      var n: int :| finish < Hundredth(n) <= start;
      assert (finish * 100.0).Floor < n <= (start * 100.0).Floor;
    }
    if !Continues(finish, start) {
      var n := (start * 100.0).Floor;
      assert n as real >= (finish * 100.0).Floor as real + 1.0;
      assert finish < Hundredth(n) <= start;
    }
  }

  /** How one more job changes the merged intervals. */
  function MergeOne(before: seq<Interval>, job: Job): (after: seq<Interval>)
    ensures after != []
  {
    if before != [] && Continues(before[|before| - 1].finish, job.start)
    then before[..|before| - 1] + [Interval(before[|before| - 1].start, job.finish)]
    else before + [Interval(job.start, job.finish)]
  }

  /** What one agent's jobs merge to, the last interval included. */
  function Merged(jobs: seq<Job>): (r: seq<Interval>)
    ensures jobs != [] ==> r != [] && r[|r| - 1].finish == jobs[|jobs| - 1].finish
    ensures |r| <= |jobs|
  {
    if jobs == [] then []
    else MergeOne(Merged(jobs[..|jobs| - 1]), jobs[|jobs| - 1])
  }

  ghost predicate Timed(jobs: seq<Job>) {
    forall j :: 0 <= j < |jobs| ==> jobs[j].start >= 0.0 && jobs[j].finish >= 0.0
  }

  /** Job `k` is apart from the one before, if there is one. */
  ghost predicate Opens(jobs: seq<Job>, k: nat)
    requires k < |jobs|
  {
    k > 0 ==> Apart(jobs[k - 1].finish, jobs[k].start)
  }

  /** `first` lists the jobs that are apart from the one before, in their order. */
  ghost predicate Openers(jobs: seq<Job>, first: seq<nat>) {
    && (forall i :: 0 <= i < |first| ==> first[i] < |jobs| && Opens(jobs, first[i]))
    && (forall i, j :: 0 <= i < j < |first| ==> first[i] < first[j])
    && (forall k :: 0 <= k < |jobs| && Opens(jobs, k) ==> k in first)
  }

  /** Where the jobs of interval `i` end: at the first one of the next interval, if there is
      one. */
  function Behind(first: seq<nat>, n: nat, i: nat): nat {
    if i + 1 < |first| then first[i + 1] else n
  }

  /** Interval `i` reaches from the start of its first job to the finish of its last. */
  ghost predicate Spans(jobs: seq<Job>, first: seq<nat>, intervals: seq<Interval>) {
    && |intervals| == |first|
    && forall i {:trigger intervals[i]} :: 0 <= i < |first| ==>
         SpansOne(jobs, first[i], Behind(first, |jobs|, i), intervals[i])
  }

  ghost predicate SpansOne(jobs: seq<Job>, lo: nat, hi: nat, interval: Interval) {
    lo < hi <= |jobs| && interval == Interval(jobs[lo].start, jobs[hi - 1].finish)
  }

  lemma OneMoreOpener(jobs: seq<Job>, n: nat, first: seq<nat>, next: seq<nat>)
    requires |jobs| == n + 1 && Openers(jobs[..n], first)
    requires next == if Opens(jobs, n) then first + [n] else first
    ensures Openers(jobs, next)
  {
    forall k | 0 <= k < n
      ensures Opens(jobs, k) <==> Opens(jobs[..n], k)
    {
    }
    forall k | 0 <= k <= n && Opens(jobs, k)
      ensures k in next
    {
      if k < n {
        assert Opens(jobs[..n], k);
        assert k in first;
      } else {
        assert next[|first|] == k;
      }
    }
  }

  lemma SpanOpens(jobs: seq<Job>, n: nat, first: seq<nat>, before: seq<Interval>, after: seq<Interval>)
    requires |jobs| == n + 1 && Spans(jobs[..n], first, before)
    requires after == before + [Interval(jobs[n].start, jobs[n].finish)]
    ensures Spans(jobs, first + [n], after)
  {
    var next := first + [n];
    forall i | 0 <= i < |next|
      ensures SpansOne(jobs, next[i], Behind(next, n + 1, i), after[i])
    {
      if i < |first| {
        assert SpansOne(jobs[..n], first[i], Behind(first, n, i), before[i]);
        assert Behind(next, n + 1, i) == Behind(first, n, i);
      }
    }
  }

  lemma SpanContinues(jobs: seq<Job>, n: nat, first: seq<nat>, before: seq<Interval>, after: seq<Interval>)
    requires |jobs| == n + 1 && Spans(jobs[..n], first, before) && before != []
    requires var last := |before| - 1;
      after == before[..last] + [Interval(before[last].start, jobs[n].finish)]
    ensures Spans(jobs, first, after)
  {
    forall i | 0 <= i < |first|
      ensures SpansOne(jobs, first[i], Behind(first, n + 1, i), after[i])
    {
      assert SpansOne(jobs[..n], first[i], Behind(first, n, i), before[i]);
    }
  }

  lemma MergeOneExactly(jobs: seq<Job>, n: nat, first: seq<nat>, before: seq<Interval>, next: seq<nat>)
    requires |jobs| == n + 1 && Openers(jobs[..n], first) && Spans(jobs[..n], first, before)
    requires Timed(jobs) && before == Merged(jobs[..n])
    requires next == if Opens(jobs, n) then first + [n] else first
    ensures Openers(jobs, next) && Spans(jobs, next, MergeOne(before, jobs[n]))
  {
    OpensExactly(jobs, n, before);
    OneMoreOpener(jobs, n, first, next);
    if Opens(jobs, n) {
      SpanOpens(jobs, n, first, before, MergeOne(before, jobs[n]));
    } else {
      SpanContinues(jobs, n, first, before, MergeOne(before, jobs[n]));
    }
  }

  /** Merging, exactly: every job that is apart from the one before opens an interval, and no
      other job does. */
  lemma {:induction false} MergedExactly(jobs: seq<Job>) returns (first: seq<nat>)
    requires Timed(jobs)
    ensures Openers(jobs, first) && Spans(jobs, first, Merged(jobs))
  {
    if jobs == [] {
      first := [];
    } else {
      var n := |jobs| - 1;
      var before := Merged(jobs[..n]);
      var most := MergedExactly(jobs[..n]);
      first := if Opens(jobs, n) then most + [n] else most;
      MergeOneExactly(jobs, n, most, before, first);
    }
  }

  lemma OpensExactly(jobs: seq<Job>, n: nat, before: seq<Interval>)
    requires Timed(jobs) && |jobs| == n + 1 && before == Merged(jobs[..n])
    ensures Opens(jobs, n) <==> !(before != [] && Continues(before[|before| - 1].finish, jobs[n].start))
  {
    if n > 0 {
      ContinuesExactly(jobs[n - 1].finish, jobs[n].start);
    }
  }

  /** Neighbouring intervals are apart. */
  lemma NeighboursAreApart(jobs: seq<Job>, i: nat, j: nat)
    requires Timed(jobs) && j == i + 1 && j < |Merged(jobs)|
    ensures Apart(Merged(jobs)[i].finish, Merged(jobs)[j].start)
  {
    var first := MergedExactly(jobs);
    SpansMeet(jobs, first, Merged(jobs), i, j);
    OpenerIsApart(jobs, first, j, Merged(jobs)[i].finish, Merged(jobs)[j].start);
  }

  lemma SpansMeet(jobs: seq<Job>, first: seq<nat>, intervals: seq<Interval>, i: nat, j: nat)
    requires Spans(jobs, first, intervals) && j == i + 1 && j < |first|
    ensures 0 < first[j] < |jobs|
    ensures intervals[i].finish == jobs[first[j] - 1].finish && intervals[j].start == jobs[first[j]].start
  {
    assert SpansOne(jobs, first[i], Behind(first, |jobs|, i), intervals[i]);
    assert SpansOne(jobs, first[j], Behind(first, |jobs|, j), intervals[j]);
  }

  lemma OpenerIsApart(jobs: seq<Job>, first: seq<nat>, j: nat, finish: real, start: real)
    requires Openers(jobs, first) && j < |first| && 0 < first[j] < |jobs|
    requires finish == jobs[first[j] - 1].finish && start == jobs[first[j]].start
    ensures Apart(finish, start)
  {
    assert Opens(jobs, first[j]);
  }

  /** A job that starts no later than the one before has finished opens no interval. */
  lemma BackToBackIsMerged(jobs: seq<Job>, first: seq<nat>, j: nat)
    requires Openers(jobs, first) && 0 < j < |jobs| && jobs[j].start <= jobs[j - 1].finish
    ensures j !in first
  {
    assert !Opens(jobs, j);
  }

  function AllButLast(intervals: seq<Interval>): seq<Interval> {
    if intervals == [] then [] else intervals[..|intervals| - 1]
  }

  /** The events one agent contributes. */
  function AgentEvents(jobs: seq<Job>): seq<Event> {
    EventsOf(AllButLast(Merged(jobs)))
  }

  /** The intervals whose events the report ever sees: for each agent, all but its last. */
  function Emitted(agents: seq<seq<Job>>): seq<Interval> {
    if agents == [] then []
    else Emitted(agents[..|agents| - 1]) + AllButLast(Merged(agents[|agents| - 1]))
  }

  function EventsOf(intervals: seq<Interval>): seq<Event> {
    if intervals == [] then []
    else
      var i := intervals[|intervals| - 1];
      EventsOf(intervals[..|intervals| - 1]) + [Event(i.start, START), Event(i.finish, FINISH)]
  }

  /** Two events for each interval, its start and its finish. */
  lemma {:induction false} EventsExactly(intervals: seq<Interval>, i: nat)
    ensures |EventsOf(intervals)| == 2 * |intervals|
    ensures i < |intervals| ==>
      EventsOf(intervals)[2 * i] == Event(intervals[i].start, 1) && EventsOf(intervals)[2 * i + 1] == Event(intervals[i].finish, -1)
  {
    if intervals != [] {
      EventsExactly(intervals[..|intervals| - 1], i);
    }
  }

  /** Between `lo` and `hi` stand all intervals of the agent with these jobs but the last. */
  ghost predicate Contributes(jobs: seq<Job>, lo: nat, hi: nat, intervals: seq<Interval>) {
    var merged := Merged(jobs);
    && lo <= hi <= |intervals| && hi - lo == (if jobs == [] then 0 else |merged| - 1)
    && forall i :: 0 <= i < hi - lo ==> intervals[lo + i] == merged[i]
  }

  lemma StillContributes(jobs: seq<Job>, lo: nat, hi: nat, before: seq<Interval>, after: seq<Interval>)
    requires Contributes(jobs, lo, hi, before) && before <= after
    ensures Contributes(jobs, lo, hi, after)
  {
  }

  lemma LastContributes(jobs: seq<Job>, lo: nat, hi: nat, before: seq<Interval>, after: seq<Interval>)
    requires lo == |before| && hi == |after| && after == before + AllButLast(Merged(jobs))
    ensures Contributes(jobs, lo, hi, after)
  {
  }

  lemma EmittedOne(agents: seq<seq<Job>>, n: nat, next: nat)
    requires n < |agents| && next == n + 1
    ensures Emitted(agents[..next]) == Emitted(agents[..n]) + AllButLast(Merged(agents[n]))
  {
    assert agents[..next][..n] == agents[..n];
  }

  lemma {:induction false} EmittedPrefix(agents: seq<seq<Job>>, k: nat)
    requires k <= |agents|
    ensures Emitted(agents[..k]) <= Emitted(agents)
    decreases |agents| - k
  {
    if k == |agents| {
      assert agents[..k] == agents;
    } else {
      EmittedOne(agents, k, k + 1);
      EmittedPrefix(agents, k + 1);
    }
  }

  /** The report sees of every agent all merged intervals but the last, one agent's behind the
      other's, and nothing else. */
  lemma EmittedExactly(agents: seq<seq<Job>>, a: nat)
    requires a < |agents|
    ensures Contributes(agents[a], |Emitted(agents[..a])|, |Emitted(agents[..a + 1])|, Emitted(agents))
    ensures a == 0 ==> |Emitted(agents[..a])| == 0
    ensures a == |agents| - 1 ==> |Emitted(agents[..a + 1])| == |Emitted(agents)|
  {
    EmittedUpTo(agents, a, a + 1, Emitted(agents[..a]), Emitted(agents[..a + 1]));
  }

  lemma EmittedUpTo(agents: seq<seq<Job>>, a: nat, next: nat, before: seq<Interval>, after: seq<Interval>)
    requires a < |agents| && next == a + 1 && before == Emitted(agents[..a]) && after == Emitted(agents[..next])
    ensures Contributes(agents[a], |before|, |after|, Emitted(agents))
    ensures (a == 0 ==> before == []) && (next == |agents| ==> after == Emitted(agents))
  {
    EmittedOne(agents, a, next);
    LastContributes(agents[a], |before|, |after|, before, after);
    EmittedPrefix(agents, next);
    StillContributes(agents[a], |before|, |after|, after, Emitted(agents));
    if next == |agents| {
      assert agents[..next] == agents;
    }
  }

  lemma {:induction false} EventsOfConcat(a: seq<Interval>, b: seq<Interval>)
    ensures EventsOf(a + b) == EventsOf(a) + EventsOf(b)
  {
    if b == [] {
      assert a + b == a;
    } else {
      var n := |b| - 1;
      EventsOfConcat(a, b[..n]);
      assert (a + b)[..|a + b| - 1] == a + b[..n];
    }
  }

  /** The first loop of `GetAgentUtilization`.  Jobs start at time 0 or later, so that a
      start of -1 can mean that there is no interval yet. */
  method Aggregate(agents: seq<seq<Job>>) returns (events: seq<Event>)
    requires forall a, j :: 0 <= a < |agents| && 0 <= j < |agents[a]| ==> agents[a][j].start >= 0.0
    ensures events == EventsOf(Emitted(agents))
  {
    events := [];
    var a := 0;
    while a < |agents|
      invariant a <= |agents|
      invariant events == EventsOf(Emitted(agents[..a]))
    {
      var more := AggregateAgent(agents[a]);
      EventsOfConcat(Emitted(agents[..a]), AllButLast(Merged(agents[a])));
      assert agents[..a + 1][..a] == agents[..a];
      events := events + more;
      a := a + 1;
    }
    assert agents[..a] == agents;
  }

  lemma MergeNext(jobs: seq<Job>, j: nat, before: seq<Interval>, after: seq<Interval>, next: nat)
    requires j < |jobs| && next == j + 1 && before == Merged(jobs[..j]) && after == MergeOne(before, jobs[j])
    ensures after == Merged(jobs[..next])
  {
    assert jobs[..next][..j] == jobs[..j];
  }

  /** The interval under way is the last one merged, and the others have been emitted. */
  ghost predicate UnderWay(merged: seq<Interval>, start: real, finish: real, events: seq<Event>) {
    && events == EventsOf(AllButLast(merged))
    && (merged == [] ==> start == -1.0)
    && (merged != [] ==> start >= 0.0 && merged[|merged| - 1] == Interval(start, finish))
  }

  /** How the program takes in one more job. */
  ghost predicate TakesIn(start: real, finish: real, events: seq<Event>, job: Job, merges: bool,
                          start': real, finish': real, events': seq<Event>) {
    if start == -1.0 then start' == job.start && finish' == job.finish && events' == events
    else if merges then start' == start && finish' == job.finish && events' == events
    else
      && start' == job.start && finish' == job.finish
      && events' == events + [Event(start, START), Event(finish, FINISH)]
  }

  lemma JobStep(merged: seq<Interval>, start: real, finish: real, events: seq<Event>, job: Job, merges: bool,
                                   start': real, finish': real, events': seq<Event>)
    requires UnderWay(merged, start, finish, events) && job.start >= 0.0 && merges == Continues(finish, job.start)
    requires TakesIn(start, finish, events, job, merges, start', finish', events')
    ensures UnderWay(MergeOne(merged, job), start', finish', events')
  {
    var after := MergeOne(merged, job);
    if start == -1.0 {
      assert AllButLast(after) == [];
    } else {
      assert AllButLast(after) == if merges then AllButLast(merged) else merged;
    }
  }

  /** The body of the loop over an agent's jobs. */
  method TakeJob(jobs: seq<Job>, j: nat, start: real, finish: real, events: seq<Event>)
    returns (start': real, finish': real, events': seq<Event>)
    requires j < |jobs| && jobs[j].start >= 0.0
    requires UnderWay(Merged(jobs[..j]), start, finish, events)
    ensures UnderWay(Merged(jobs[..j + 1]), start', finish', events')
  {
    start', finish', events' := start, finish, events;
    var job := jobs[j];
    var merges := Continues(finish, job.start);
    if start == -1.0 {
      start', finish' := job.start, job.finish;
    } else if merges {
      finish' := job.finish;
    } else {
      events' := events + [Event(start, START), Event(finish, FINISH)];
      start', finish' := job.start, job.finish;
    }
    JobStep(Merged(jobs[..j]), start, finish, events, job, merges, start', finish', events');
    MergeNext(jobs, j, Merged(jobs[..j]), MergeOne(Merged(jobs[..j]), job), j + 1);
  }

  lemma NoneMerged(jobs: seq<Job>)
    ensures Merged(jobs[..0]) == [] && UnderWay([], -1.0, -1.0, [])
  {
  }

  method AggregateAgent(jobs: seq<Job>) returns (events: seq<Event>)
    requires forall j :: 0 <= j < |jobs| ==> jobs[j].start >= 0.0
    ensures events == AgentEvents(jobs)
  {
    var start, finish := -1.0, -1.0;
    events := [];
    var j := 0;
    ghost var merged := [];
    NoneMerged(jobs);
    while j < |jobs|
      invariant j <= |jobs| && merged == Merged(jobs[..j])
      invariant UnderWay(merged, start, finish, events)
    {
      start, finish, events := TakeJob(jobs, j, start, finish, events);
      j := j + 1;
      merged := Merged(jobs[..j]);
    }
    assert jobs[..j] == jobs;
  }

  /** Two jobs are merged only across a gap of less than a hundredth of a second. */
  lemma ClosedGapIsShort(finish: real, start: real)
    requires 0.0 <= finish && 0.0 <= start && Continues(finish, start)
    ensures start - finish < 0.01
  {
    assert (start * 100.0).Floor as real <= (finish * 100.0).Floor as real;
  }

  /** Total length of some intervals. */
  function Length(intervals: seq<Interval>): real {
    if intervals == [] then 0.0
    else Length(intervals[..|intervals| - 1]) + intervals[|intervals| - 1].finish - intervals[|intervals| - 1].start
  }

  function Busy(jobs: seq<Job>): real {
    if jobs == [] then 0.0
    else Busy(jobs[..|jobs| - 1]) + jobs[|jobs| - 1].finish - jobs[|jobs| - 1].start
  }

  /** One job after the other, each finishing no earlier than it starts. */
  ghost predicate Sequential(jobs: seq<Job>) {
    && (forall j :: 0 <= j < |jobs| ==> 0.0 <= jobs[j].start <= jobs[j].finish)
    && (forall j :: 0 < j < |jobs| ==> jobs[j - 1].finish <= jobs[j].start)
  }

  lemma LengthOfMergeOne(before: seq<Interval>, job: Job)
    ensures Length(MergeOne(before, job)) == Length(before) + job.finish - (
      if before != [] && Continues(before[|before| - 1].finish, job.start) then before[|before| - 1].finish else job.start)
  {
    var after := MergeOne(before, job);
    if before != [] && Continues(before[|before| - 1].finish, job.start) {
      assert after[..|before| - 1] == before[..|before| - 1];
    } else {
      assert after[..|before|] == before;
    }
  }

  ghost predicate Proper(intervals: seq<Interval>) {
    forall i :: 0 <= i < |intervals| ==> 0.0 <= intervals[i].start <= intervals[i].finish
  }

  lemma MergeOneIsProper(before: seq<Interval>, job: Job)
    requires Proper(before) && 0.0 <= job.start <= job.finish
    requires before != [] ==> before[|before| - 1].finish <= job.start
    ensures Proper(MergeOne(before, job))
  {
  }

  lemma {:induction false} MergedAreProper(jobs: seq<Job>)
    requires Sequential(jobs)
    ensures Proper(Merged(jobs))
  {
    if jobs != [] {
      var n := |jobs| - 1;
      MergedAreProper(jobs[..n]);
      MergeOneIsProper(Merged(jobs[..n]), jobs[n]);
    }
  }

  /** What one more job adds besides its own length: the gap, if one is closed. */
  lemma MergeOneAdds(before: seq<Interval>, job: Job)
    requires Proper(before) && 0.0 <= job.start
    requires before != [] ==> before[|before| - 1].finish <= job.start
    ensures var after := MergeOne(before, job);
      var added := Length(after) - Length(before) - (job.finish - job.start);
      if |after| == |before| then 0.0 <= added < 0.01 else |after| == |before| + 1 && added == 0.0
  {
    LengthOfMergeOne(before, job);
    if before != [] {
      Gap(before[|before| - 1].finish, job.start);
    }
  }

  lemma Gap(finish: real, start: real)
    requires 0.0 <= finish && 0.0 <= start
    ensures Continues(finish, start) ==> start - finish < 0.01
  {
    if Continues(finish, start) {
      ClosedGapIsShort(finish, start);
    }
  }

  /** Merging the jobs of an agent adds less than a hundredth of a second per job merged
      away, and never loses time. */
  lemma {:induction false} MergingIsAlmostExact(jobs: seq<Job>)
    requires Sequential(jobs)
    ensures 0.0 <= Length(Merged(jobs)) - Busy(jobs) <= 0.01 * (|jobs| - |Merged(jobs)|) as real
  {
    if jobs != [] {
      var n := |jobs| - 1;
      MergingIsAlmostExact(jobs[..n]);
      MergedAreProper(jobs[..n]);
      assert jobs[..n] != [] ==> jobs[..n][n - 1].finish <= jobs[n].start;
      MergeOneAdds(Merged(jobs[..n]), jobs[n]);
    }
  }

  /** The last interval of every agent is never emitted: the report sees all intervals
      exactly when no agent has run a job. */
  lemma {:induction false} LastIntervalIsLost(agents: seq<seq<Job>>)
    ensures |Emitted(agents)| == AllMerged(agents) - Used(agents)
    ensures |Emitted(agents)| == AllMerged(agents) <==> forall a :: 0 <= a < |agents| ==> agents[a] == []
  {
    if agents != [] {
      LastIntervalIsLost(agents[..|agents| - 1]);
    }
  }

  function AllMerged(agents: seq<seq<Job>>): nat {
    if agents == [] then 0 else AllMerged(agents[..|agents| - 1]) + |Merged(agents[|agents| - 1])|
  }

  /** How many agents have run a job. */
  function Used(agents: seq<seq<Job>>): nat {
    if agents == [] then 0 else Used(agents[..|agents| - 1]) + if agents[|agents| - 1] == [] then 0 else 1
  }
}
