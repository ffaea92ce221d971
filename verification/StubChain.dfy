/** The stub jobs that `annocat` inserts to present several builds as one: a rule in front
    of every build, a follow job between two builds, and an end job. */
module StubChain {
  import opened AnnoText
  import opened Options

  datatype Kind = Rule | Follow | End

  /** A job of a build. */
  datatype RealJob = RealJob(build: string, job: string) {
    function Scoped(): string {
      ScopeJobId(build, job)
    }
  }

  datatype Waiter = Fake(id: nat) | Real(job: RealJob) {
    function Text(): string {
      match this
      case Fake(id) => FakeId(id)
      case Real(job) => job.Scoped()
    }
  }

  /** `waiters` lists the jobs that wait for this one. */
  datatype FakeJob = FakeJob(kind: Kind, id: nat, partOf: Option<nat>, waiters: seq<Waiter>)

  const END := Fake(0)

  /** `EmitFakeJob` spells the end job out. */
  lemma EndId()
    ensures END.Text() == "J00000000"
  {
    assert Digits(0) == "0";
    assert "0" + "0" == "00" && "0" + "00" == "000" && "0" + "000" == "0000";
    assert "0" + "0000" == "00000" && "0" + "00000" == "000000";
    assert Padded("000000") == Padded("0000000") == Padded("00000000") by {
      assert "0" + "000000" == "0000000" && "0" + "0000000" == "00000000";
    }
    assert Padded("000") == Padded("0000") == Padded("00000") == Padded("000000");
  }

  /** What `EmitFakeJob` writes for the job number it has reached. */
  function Made(kind: Kind, id: nat, emitWaiters: bool, extraWaiter: Option<RealJob>): FakeJob
    requires kind == Follow ==> id > 0
  {
    FakeJob(kind, id, if kind == Follow then Some(id - 1) else None,
            if id == 0 then []
            else [END] + (if emitWaiters then [Fake(id + 1)] else []) + Extra(extraWaiter))
  }

  function Extra(extraWaiter: Option<RealJob>): (ws: seq<Waiter>)
    ensures |ws| <= 1 && forall w :: w in ws ==> w.Real?
  {
    if extraWaiter.Some? && extraWaiter.value.Scoped() != "" then [Real(extraWaiter.value)] else []
  }

  /** What the first job of a build adds to the stubs so far. */
  function WithBuild(before: seq<FakeJob>, follows: bool, first: RealJob): (jobs: seq<FakeJob>)
    ensures |jobs| == |before| + if follows then 2 else 1
  {
    var link := if follows then before + [Made(Follow, |before| + 1, true, None)] else before;
    link + [Made(Rule, |link| + 1, true, Some(first))]
  }

  /** The stubs for a list of builds, each with its first job if it has any. */
  function Stubs(builds: seq<Option<RealJob>>): seq<FakeJob> {
    if builds == [] then []
    else
      var n := |builds| - 1;
      var before := Stubs(builds[..n]);
      if builds[n].Some? then WithBuild(before, n > 0, builds[n].value) else before
  }

  function Chain(builds: seq<Option<RealJob>>): seq<FakeJob> {
    Stubs(builds) + [Made(Follow, |Stubs(builds)| + 1, false, None), Made(End, 0, false, None)]
  }

  /** Rules and follow jobs take turns, each follow job belongs to the rule before it, each
      job lets the next one go, and the end job waits for all of them. */
  ghost predicate Link(j: FakeJob, k: nat) {
    && j.id == k + 1
    && j.kind == (if k % 2 == 0 then Rule else Follow)
    && j.partOf == (if k % 2 == 0 then None else Some(k))
    && |j.waiters| >= 2 && j.waiters[0] == END && j.waiters[1] == Fake(k + 2)
    && forall i :: 2 <= i < |j.waiters| ==> j.waiters[i].Real?
  }

  ghost predicate Links(jobs: seq<FakeJob>) {
    forall k :: 0 <= k < |jobs| ==> Link(jobs[k], k)
  }

  ghost predicate Serial(jobs: seq<FakeJob>) {
    && |jobs| >= 3 && |jobs| % 2 == 1
    && Links(jobs[..|jobs| - 2])
    && jobs[|jobs| - 2] == FakeJob(Follow, |jobs| - 1, Some(|jobs| - 2), [END])
    && jobs[|jobs| - 1] == FakeJob(End, 0, None, [])
  }

  lemma RuleIsLink(k: nat, id: nat, first: RealJob)
    requires k % 2 == 0 && id == k + 1
    ensures Link(Made(Rule, id, true, Some(first)), k)
  {
    var j := Made(Rule, id, true, Some(first));
    assert j.waiters[2..] == Extra(Some(first));
    forall i | 2 <= i < |j.waiters|
      ensures j.waiters[i].Real?
    {
      assert j.waiters[i] in j.waiters[2..];
    }
  }

  lemma FollowIsLink(k: nat, id: nat)
    requires k % 2 == 1 && id == k + 1
    ensures Link(Made(Follow, id, true, None), k)
  {
  }

  lemma OneMoreLink(jobs: seq<FakeJob>, j: FakeJob)
    requires Links(jobs) && Link(j, |jobs|)
    ensures Links(jobs + [j])
  {
  }

  lemma BuildLinks(before: seq<FakeJob>, first: RealJob)
    requires |before| % 2 == 1 && Links(before)
    ensures Links(WithBuild(before, true, first)) && |WithBuild(before, true, first)| % 2 == 1
  {
    var link := before + [Made(Follow, |before| + 1, true, None)];
    FollowIsLink(|before|, |before| + 1);
    OneMoreLink(before, Made(Follow, |before| + 1, true, None));
    RuleIsLink(|link|, |link| + 1, first);
    OneMoreLink(link, Made(Rule, |link| + 1, true, Some(first)));
  }

  lemma FirstBuildLinks(first: RealJob)
    ensures Links(WithBuild([], false, first)) && |WithBuild([], false, first)| % 2 == 1
  {
    RuleIsLink(0, 1, first);
    OneMoreLink([], Made(Rule, 1, true, Some(first)));
  }

  lemma {:induction false} StubsAreLinks(builds: seq<Option<RealJob>>)
    requires builds != [] && builds[0].Some?
    ensures |Stubs(builds)| % 2 == 1 && Links(Stubs(builds))
  {
    var n := |builds| - 1;
    if n == 0 {
      FirstBuildLinks(builds[0].value);
      assert Stubs(builds) == WithBuild([], false, builds[0].value);
    } else {
      StubsAreLinks(builds[..n]);
      if builds[n].Some? {
        BuildLinks(Stubs(builds[..n]), builds[n].value);
        assert Stubs(builds) == WithBuild(Stubs(builds[..n]), true, builds[n].value);
      } else {
        assert Stubs(builds) == Stubs(builds[..n]);
      }
    }
  }

  lemma {:induction false} StubsStartWithFollow(builds: seq<Option<RealJob>>)
    requires builds != [] && builds[0] == None
    ensures Stubs(builds) == [] || Stubs(builds)[0].kind == Follow
  {
    var n := |builds| - 1;
    if n == 0 {
      assert builds[..n] == [];
    } else {
      StubsStartWithFollow(builds[..n]);
    }
  }

  /** The combined file looks like one serial build exactly when its first build has a job.
      Otherwise it begins with a follow job of a rule that is not there. */
  lemma SerialExactly(builds: seq<Option<RealJob>>)
    ensures Serial(Chain(builds)) <==> builds != [] && builds[0].Some?
  {
    var jobs := Chain(builds);
    if builds != [] && builds[0].Some? {
      StubsAreLinks(builds);
      assert jobs[..|jobs| - 2] == Stubs(builds);
    } else {
      if builds != [] {
        StubsStartWithFollow(builds);
      }
      assert jobs[0].kind == Follow;
      NoFollowFirst(jobs);
    }
  }

  lemma NoFollowFirst(jobs: seq<FakeJob>)
    ensures jobs != [] && jobs[0].kind == Follow ==> !Serial(jobs)
  {
    if |jobs| >= 3 && Serial(jobs) {
      assert Link(jobs[..|jobs| - 2][0], 0);
    }
  }

  // ------------------------------------------------------------------------ the order

  ghost predicate Names(ws: seq<Waiter>, id: string) {
    exists i :: 0 <= i < |ws| && ws[i].Text() == id
  }

  /** Job `b` of the chain waits for job `a`: its id is in the list of waiters. */
  ghost predicate Waits(jobs: seq<FakeJob>, a: nat, b: nat) {
    a < |jobs| && b < |jobs| && Names(jobs[a].waiters, FakeId(jobs[b].id))
  }

  lemma NamesStub(w: Waiter, id: nat)
    ensures w.Text() == FakeId(id) <==> w == Fake(id)
  {
    match w {
      case Fake(n) =>
        if FakeId(n) == FakeId(id) {
          FakeIdIsInjective(n, id);
        }
      case Real(job) => ScopedIsNotFake(job.build, job.job, id);
    }
  }

  /** Waiters of one link: the end job, the next job, and no other stub. */
  lemma LinkWaiters(j: FakeJob, k: nat, id: nat)
    requires Link(j, k)
    ensures Names(j.waiters, FakeId(id)) <==> id == 0 || id == k + 2
  {
    NamesStub(j.waiters[0], id);
    NamesStub(j.waiters[1], id);
    if Names(j.waiters, FakeId(id)) {
      var i :| 0 <= i < |j.waiters| && j.waiters[i].Text() == FakeId(id);
      NamesStub(j.waiters[i], id);
    }
  }

  /** In a serial chain each job is waited for by its successor and the end job, and by no
      other stub. */
  lemma WaitsExactly(jobs: seq<FakeJob>, a: nat, b: nat)
    requires Serial(jobs) && a < |jobs| && b < |jobs|
    ensures Waits(jobs, a, b) <==> a < |jobs| - 1 && (b == a + 1 || b == |jobs| - 1)
  {
    var last := |jobs| - 1;
    assert b < last - 1 ==> Link(jobs[..last - 1][b], b);
    assert jobs[b].id == if b == last then 0 else b + 1;
    if a < last - 1 {
      assert Link(jobs[..last - 1][a], a);
      LinkWaiters(jobs[a], a, jobs[b].id);
    } else if a == last - 1 {
      assert jobs[a].waiters == [END] && jobs[a].waiters[0].Text() == FakeId(0);
      NamesStub(END, jobs[b].id);
    }
  }

  ghost predicate Path(jobs: seq<FakeJob>, path: seq<nat>) {
    forall i, j :: 0 <= i && j == i + 1 && j < |path| ==> Waits(jobs, path[i], path[j])
  }

  /** So no stub waits for itself, however indirectly. */
  lemma {:induction false} PathsGoForward(jobs: seq<FakeJob>, path: seq<nat>)
    requires Serial(jobs) && |path| >= 2 && Path(jobs, path)
    ensures path[0] < path[|path| - 1] < |jobs|
  {
    var n := |path| - 1;
    assert Waits(jobs, path[n - 1], path[n]);
    WaitsExactly(jobs, path[n - 1], path[n]);
    if n > 1 {
      PathsGoForward(jobs, path[..n]);
    }
  }

  // ---------------------------------------------------------------- waiting real jobs

  lemma {:induction false} StubsPrefix(builds: seq<Option<RealJob>>, k: nat)
    requires k <= |builds|
    ensures Stubs(builds[..k]) <= Stubs(builds)
    decreases |builds| - k
  {
    if k == |builds| {
      assert builds[..k] == builds;
    } else {
      StubsPrefix(builds, k + 1);
      assert builds[..k + 1][..k] == builds[..k];
      assert Stubs(builds[..k]) <= Stubs(builds[..k + 1]);
    }
  }

  /** Where the rule in front of build `k` stands in the chain. */
  function RuleOf(builds: seq<Option<RealJob>>, k: nat): int
    requires k < |builds|
  {
    |Stubs(builds[..k + 1])| - 1
  }

  /** A job that a stub lists as waiting besides other stubs. */
  ghost predicate Lists(j: FakeJob, job: RealJob) {
    exists i :: 0 <= i < |j.waiters| && j.waiters[i] == Real(job)
  }

  ghost predicate ListsOnlyStubs(j: FakeJob) {
    forall i :: 0 <= i < |j.waiters| ==> j.waiters[i].Fake?
  }

  lemma RuleLists(id: nat, first: RealJob)
    requires id > 0
    ensures var j := Made(Rule, id, true, Some(first));
      && (forall job :: Lists(j, job) <==> job == first && first.Scoped() != "")
      && (first.Scoped() == "" <==> first.job == "")
      && Names(j.waiters, first.Scoped()) == (first.Scoped() != "")
  {
    var j := Made(Rule, id, true, Some(first));
    var ws := j.waiters;
    if first.Scoped() != "" {
      assert ws == [END, Fake(id + 1), Real(first)];
      assert ws[2].Text() == first.Scoped();
    } else {
      assert ws == [END, Fake(id + 1)];
      assert END.Text()[0] == 'J' && Fake(id + 1).Text()[0] == 'J';
    }
  }

  lemma RuleStands(builds: seq<Option<RealJob>>, k: nat, r: int)
    requires k < |builds| && builds[k].Some? && r == RuleOf(builds, k)
    ensures 0 <= r < |Stubs(builds)| && Stubs(builds)[r] == Made(Rule, r + 1, true, builds[k])
  {
    var upTo := builds[..k + 1];
    assert upTo[..k] == builds[..k];
    assert Stubs(upTo) == WithBuild(Stubs(upTo[..k]), k > 0, builds[k].value);
    StubsPrefix(builds, k + 1);
    assert Stubs(builds)[r] == Stubs(upTo)[r];
  }

  /** Of every build with a first job, that job waits for the rule in front of the build: the
      rule lists it, under its name, and no other real job.  An empty id is not listed. */
  lemma FirstJobsWait(builds: seq<Option<RealJob>>, k: nat)
    requires k < |builds| && builds[k].Some?
    ensures var r, first := RuleOf(builds, k), builds[k].value;
      && 0 <= r < |Stubs(builds)| && Chain(builds)[r].kind == Rule
      && (forall job :: Lists(Chain(builds)[r], job) <==> job == first && first.job != "")
      && (Names(Chain(builds)[r].waiters, first.Scoped()) <==> first.job != "")
  {
    RuleStands(builds, k, RuleOf(builds, k));
    RuleLists(RuleOf(builds, k) + 1, builds[k].value);
  }

  /** Different builds have different rules, in their order. */
  lemma RulesInOrder(builds: seq<Option<RealJob>>, k: nat, m: nat)
    requires k < m < |builds| && builds[m].Some?
    ensures RuleOf(builds, k) < RuleOf(builds, m)
  {
    assert builds[..m + 1][..m] == builds[..m];
    assert builds[..m][..k + 1] == builds[..k + 1];
    StubsPrefix(builds[..m], k + 1);
  }

  /** Every stub is such a rule, or lists no real job at all. */
  lemma {:induction false} OnlyRulesList(builds: seq<Option<RealJob>>, r: nat)
    requires r < |Stubs(builds)|
    ensures ListsOnlyStubs(Stubs(builds)[r]) || exists k :: 0 <= k < |builds| && builds[k].Some? && r == RuleOf(builds, k)
    ensures Stubs(builds)[r].kind != Rule ==> ListsOnlyStubs(Stubs(builds)[r])
  {
    var n := |builds| - 1;
    assert builds[..n + 1] == builds;
    if r < |Stubs(builds[..n])| {
      OnlyRulesList(builds[..n], r);
      assert Stubs(builds)[r] == Stubs(builds[..n])[r];
      if !ListsOnlyStubs(Stubs(builds)[r]) {
        var k :| 0 <= k < n && builds[..n][k].Some? && r == RuleOf(builds[..n], k);
        assert builds[..n][..k + 1] == builds[..k + 1];
        assert builds[k].Some? && r == RuleOf(builds, k);
      }
    } else if r == |Stubs(builds)| - 1 {
      assert builds[n].Some? && r == RuleOf(builds, n);
    }
  }

  /** The follow job and the end job behind the last build list no real job either. */
  lemma EndingListsNone(builds: seq<Option<RealJob>>, r: nat)
    requires |Stubs(builds)| <= r < |Chain(builds)|
    ensures ListsOnlyStubs(Chain(builds)[r])
  {
  }
}
