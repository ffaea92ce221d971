/** `annocat`: several annotation files concatenated into one.  Job ids are renamed, stub
    jobs are put in, and what a build writes before its first job is held back until its
    stubs are out. */
module Annocat {
  import opened AnnoReader
  import opened AnnoText
  import opened Options
  import opened StubChain

  // ------------------------------------------------------------- what the output means

  function Copies(pieces: seq<Piece>): seq<Piece> {
    if pieces == [] then []
    else
      var last := pieces[|pieces| - 1];
      Copies(pieces[..|pieces| - 1]) + if last.Copied() then [last] else []
  }

  function MadeUp(pieces: seq<Piece>): seq<Piece> {
    if pieces == [] then []
    else
      var last := pieces[|pieces| - 1];
      MadeUp(pieces[..|pieces| - 1]) + if last.Copied() then [] else [last]
  }

  /** What is made up and the jobs of the input, in the order in which they are written. */
  function Marks(pieces: seq<Piece>): seq<Piece> {
    if pieces == [] then []
    else
      var last := pieces[|pieces| - 1];
      Marks(pieces[..|pieces| - 1]) + if last.Copied() && !last.IsJob() then [] else [last]
  }

  lemma AddPiece(pieces: seq<Piece>, p: Piece, next: seq<Piece>)
    requires next == pieces + [p]
    ensures Copies(next) == if p.Copied() then Copies(pieces) + [p] else Copies(pieces)
    ensures MadeUp(next) == if p.Copied() then MadeUp(pieces) else MadeUp(pieces) + [p]
    ensures Marks(next) == if p.Copied() && !p.IsJob() then Marks(pieces) else Marks(pieces) + [p]
  {
    assert next[..|next| - 1] == pieces;
  }

  /** Copied pieces without a job among them. */
  ghost predicate Quiet(pieces: seq<Piece>) {
    forall i :: 0 <= i < |pieces| ==> pieces[i].Copied() && !pieces[i].IsJob()
  }

  lemma {:induction false} AddCopies(pieces: seq<Piece>, more: seq<Piece>, all: seq<Piece>)
    requires Quiet(more) && all == pieces + more
    ensures Copies(all) == Copies(pieces) + more
    ensures MadeUp(all) == MadeUp(pieces) && Marks(all) == Marks(pieces)
  {
    if more == [] {
      assert all == pieces;
    } else {
      var m := |more| - 1;
      var most := pieces + more[..m];
      AddCopies(pieces, more[..m], most);
      LastLast(pieces, more);
      AddPiece(most, more[m], all);
      LastLast(Copies(pieces), more);
    }
  }

  lemma AddTwo(pieces: seq<Piece>, p: Piece, q: Piece, next: seq<Piece>)
    requires !p.Copied() && !q.Copied() && next == pieces + [p, q]
    ensures Copies(next) == Copies(pieces)
    ensures MadeUp(next) == MadeUp(pieces) + [p, q] && Marks(next) == Marks(pieces) + [p, q]
  {
    AddPiece(pieces, p, pieces + [p]);
    assert next == (pieces + [p]) + [q];
    AddPiece(pieces + [p], q, next);
  }

  lemma LastLast(a: seq<Piece>, b: seq<Piece>)
    requires b != []
    ensures (a + b[..|b| - 1]) + [b[|b| - 1]] == a + b
  {
  }

  /** What has to be made up for the builds: the opening tag if the first of them has a job,
      and the stubs. */
  function MadeFor(builds: seq<Option<RealJob>>): seq<Piece> {
    (if builds != [] && builds[0].Some? then [Make] else []) + StubPieces(Stubs(builds))
  }

  function StubPieces(jobs: seq<FakeJob>): seq<Piece> {
    seq(|jobs|, i requires 0 <= i < |jobs| => Stub(jobs[i]))
  }

  lemma NewBuild(builds: seq<Option<RealJob>>, next: seq<Option<RealJob>>)
    requires next == builds + [None]
    ensures Stubs(next) == Stubs(builds) && MadeFor(next) == MadeFor(builds)
  {
    assert next[..|builds|] == builds;
  }

  /** The two pieces the first job of the latest build brings in. */
  function Brought(k: nat, follows: bool, job: RealJob): (ps: seq<Piece>)
    requires k > 0
    ensures |ps| == 2 && !ps[0].Copied() && !ps[1].Copied()
  {
    if follows then [Stub(Made(Follow, k, true, None)), Stub(Made(Rule, k + 1, true, Some(job)))]
    else [Make, Stub(Made(Rule, k, true, Some(job)))]
  }

  lemma FirstJob(builds: seq<Option<RealJob>>, k: nat, job: RealJob, next: seq<Option<RealJob>>)
    requires builds != [] && builds[|builds| - 1] == None && k == |Stubs(builds)| + 1
    requires next == builds[|builds| - 1 := Some(job)]
    ensures Stubs(next) == WithBuild(Stubs(builds), |builds| > 1, job)
    ensures MadeFor(next) == MadeFor(builds) + Brought(k, |builds| > 1, job)
  {
    var n := |builds| - 1;
    assert builds[..n] == next[..n];
    assert Stubs(next) == WithBuild(Stubs(builds), n > 0, job);
    if n == 0 {
      assert Stubs(builds) == [];
    }
    PiecesOfBuild(Stubs(builds), n > 0, job, k);
  }

  lemma PiecesOfBuild(stubs: seq<FakeJob>, follows: bool, job: RealJob, k: nat)
    requires k == |stubs| + 1
    ensures var all := StubPieces(WithBuild(stubs, follows, job));
      if follows then all == StubPieces(stubs) + Brought(k, true, job)
      else stubs == [] ==> [Make] + all == Brought(k, false, job)
  {
  }

  /** Where the jobs belong among what is made up: behind the pieces their build brings in,
      which stand behind all jobs of the builds before. */
  function Plan(builds: seq<Option<RealJob>>, jobs: seq<seq<Piece>>): seq<Piece>
    requires |jobs| == |builds| + 1
  {
    if builds == [] then jobs[0]
    else
      var n := |builds| - 1;
      Plan(builds[..n], jobs[..n + 1]) + BroughtBy(builds, n) + jobs[n + 1]
  }

  /** What build `k` brings in. */
  function BroughtBy(builds: seq<Option<RealJob>>, k: nat): seq<Piece>
    requires k < |builds|
  {
    if builds[k].Some? then Brought(|Stubs(builds[..k])| + 1, k > 0, builds[k].value) else []
  }

  lemma SamePrefix(builds: seq<Option<RealJob>>, jobs: seq<seq<Piece>>, k: nat)
    requires |jobs| == |builds| + 1 && k < |builds| - 1
    ensures var n := |builds| - 1;
      && builds[..n][..k] == builds[..k] && jobs[..n + 1][..k + 1] == jobs[..k + 1]
      && BroughtBy(builds[..n], k) == BroughtBy(builds, k) && jobs[..n + 1][k + 1] == jobs[k + 1]
  {
  }

  /** The plan, cut at any build: its stubs, then its jobs, between those of the builds before
      and those of the builds behind. */
  lemma {:induction false} PlanAt(builds: seq<Option<RealJob>>, jobs: seq<seq<Piece>>, k: nat) returns (rest: seq<Piece>)
    requires |jobs| == |builds| + 1 && k < |builds|
    ensures Plan(builds, jobs) == Plan(builds[..k], jobs[..k + 1]) + BroughtBy(builds, k) + jobs[k + 1] + rest
  {
    var n := |builds| - 1;
    if k == n {
      rest := [];
      LastBuild(builds, jobs, n);
    } else {
      var before := PlanAt(builds[..n], jobs[..n + 1], k);
      SamePrefix(builds, jobs, k);
      var first := Plan(builds[..k], jobs[..k + 1]) + BroughtBy(builds, k) + jobs[k + 1];
      rest := before + BroughtBy(builds, n) + jobs[n + 1];
      LastBuild(builds, jobs, n);
      Regroup(first, before, BroughtBy(builds, n), jobs[n + 1], Plan(builds, jobs), rest);
    }
  }

  lemma LastBuild(builds: seq<Option<RealJob>>, jobs: seq<seq<Piece>>, n: nat)
    requires |jobs| == |builds| + 1 && |builds| == n + 1
    ensures Plan(builds, jobs) == Plan(builds[..n], jobs[..n + 1]) + BroughtBy(builds, n) + jobs[n + 1]
  {
  }

  lemma Regroup(a: seq<Piece>, b: seq<Piece>, c: seq<Piece>, d: seq<Piece>, whole: seq<Piece>, rest: seq<Piece>)
    requires whole == (a + b) + c + d && rest == b + c + d
    ensures whole == a + rest
  {
  }

  lemma PlanNewBuild(builds: seq<Option<RealJob>>, jobs: seq<seq<Piece>>)
    requires |jobs| == |builds| + 1
    ensures Plan(builds + [None], jobs + [[]]) == Plan(builds, jobs)
  {
    assert (builds + [None])[..|builds|] == builds && (jobs + [[]])[..|jobs|] == jobs;
  }

  lemma PlanFirstJob(builds: seq<Option<RealJob>>, jobs: seq<seq<Piece>>, job: RealJob, k: nat)
    requires |jobs| == |builds| + 1 && builds != [] && builds[|builds| - 1] == None && jobs[|builds|] == []
    requires k == |Stubs(builds)| + 1
    ensures Plan(builds[|builds| - 1 := Some(job)], jobs) == Plan(builds, jobs) + Brought(k, |builds| > 1, job)
  {
    var n := |builds| - 1;
    assert builds[n := Some(job)][..n] == builds[..n];
    assert Stubs(builds) == Stubs(builds[..n]);
    assert Plan(builds, jobs) == Plan(builds[..n], jobs[..n + 1]);
    assert BroughtBy(builds[n := Some(job)], n) == Brought(k, n > 0, job);
  }

  lemma PlanJob(builds: seq<Option<RealJob>>, jobs: seq<seq<Piece>>, p: Piece)
    requires |jobs| == |builds| + 1
    ensures var last := |builds|;
      Plan(builds, jobs[last := jobs[last] + [p]]) == Plan(builds, jobs) + [p]
  {
    var n := |builds|;
    var next := jobs[n := jobs[n] + [p]];
    if n > 0 {
      assert next[..n] == jobs[..n];
    }
  }

  lemma StubsGoFirst(was: seq<Piece>, ps: seq<Piece>, held: seq<Piece>, out: seq<Piece>)
    requires Quiet(held) && |ps| == 2 && !ps[0].Copied() && !ps[1].Copied()
    requires out == was + ps + held
    ensures MadeUp(out) == MadeUp(was) + ps && Copies(out) == Copies(was) + held && Marks(out) == Marks(was) + ps
  {
    assert ps == [ps[0], ps[1]];
    AddTwo(was, ps[0], ps[1], was + ps);
    AddCopies(was + ps, held, out);
  }

  function Ending(builds: seq<Option<RealJob>>): (ps: seq<Piece>)
    ensures |ps| == 2 && !ps[0].Copied() && !ps[1].Copied()
  {
    [Stub(Made(Follow, |Stubs(builds)| + 1, false, None)), Stub(Made(End, 0, false, None))]
  }

  /** Everything made up in a whole run.  The closing tags are missing if the last build has
      no job. */
  function Output(r: Reader): seq<Piece> {
    MadeFor(r.builds) + Ending(r.builds) + Closing(r)
  }

  function Closing(r: Reader): seq<Piece> {
    if r.Waiting() then [] else [EndMake, EndAll]
  }

  /** The stubs of a run, from first to last, are the chain of its builds.  The output is
      opened if the first build has a job and closed unless the last one has none. */
  lemma OutputIsChain(r: Reader)
    ensures Output(r) ==
      (if r.builds != [] && r.builds[0].Some? then [Make] else []) + StubPieces(Chain(r.builds)) +
      (if r.Waiting() then [] else [EndMake, EndAll])
  {
    assert StubPieces(Chain(r.builds)) == StubPieces(Stubs(r.builds)) + Ending(r.builds);
  }

  /** The stubs that are out are those of the builds read so far, the jobs stand among them as
      planned, and everything kept is out or held back, in its order. */
  ghost predicate Written(out: seq<Piece>, held: seq<Piece>, r: Reader) {
    && Quiet(held) && Copies(out) + held == r.kept
    && MadeUp(out) == MadeFor(r.builds)
    && |r.jobs| == |r.builds| + 1 && (r.Waiting() ==> r.jobs[|r.builds|] == [])
    && Marks(out) == Plan(r.builds, r.jobs)
  }

  lemma WrittenKept(out: seq<Piece>, held: seq<Piece>, r: Reader, p: Piece)
    requires Written(out, held, r) && p.Copied() && !p.IsJob()
    ensures Written(out, held + [p], r.Keep(p))
    ensures held == [] ==> Written(out + [p], held, r.Keep(p))
  {
    AddPiece(out, p, out + [p]);
    assert Copies(out) + (held + [p]) == (Copies(out) + held) + [p];
  }

  lemma WrittenJob(out: seq<Piece>, r: Reader, p: Piece)
    requires Written(out, [], r) && p.IsJob() && !r.Waiting()
    ensures Written(out + [p], [], r.KeepJob(p))
  {
    AddPiece(out, p, out + [p]);
    PlanJob(r.builds, r.jobs, p);
    assert Copies(out) + [] == Copies(out);
    JobWritten(out, r, p, out + [p], r.KeepJob(p));
  }

  lemma JobWritten(out: seq<Piece>, r: Reader, p: Piece, out': seq<Piece>, r': Reader)
    requires Written(out, [], r) && !r.Waiting() && r'.kept == r.kept + [p] && r'.builds == r.builds
    requires Copies(out') == Copies(out) + [p] && MadeUp(out') == MadeUp(out) && Marks(out') == Marks(out) + [p]
    requires |r'.jobs| == |r.jobs| && Plan(r'.builds, r'.jobs) == Plan(r.builds, r.jobs) + [p]
    ensures Written(out', [], r')
  {
    assert Copies(out) + [] == Copies(out);
    assert Copies(out') + [] == Copies(out');
  }

  lemma WrittenBuild(out: seq<Piece>, held: seq<Piece>, r: Reader, r': Reader)
    requires Written(out, held, r) && r'.kept == r.kept && r'.builds == r.builds + [None] && r'.jobs == r.jobs + [[]]
    ensures Written(out, held, r')
  {
    NewBuild(r.builds, r'.builds);
    PlanNewBuild(r.builds, r.jobs);
  }

  lemma WrittenFlushed(out: seq<Piece>, held: seq<Piece>, r: Reader)
    requires Written(out, held, r)
    ensures Written(out + held, [], r)
  {
    AddCopies(out, held, out + held);
  }

  lemma WrittenFirst(was: seq<Piece>, held: seq<Piece>, r: Reader, job: RealJob, k: nat, out: seq<Piece>, r': Reader)
    requires r.builds != [] && r' == r.WithFirst(job)
    requires Written(was, held, r) && r.Waiting() && k == |Stubs(r.builds)| + 1
    requires out == was + Brought(k, |r.builds| > 1, job) + held
    ensures Written(out, [], r') && !r'.Waiting()
    ensures |Stubs(r'.builds)| + 1 == k + if |r.builds| > 1 then 2 else 1
  {
    var brought := Brought(k, |r.builds| > 1, job);
    FirstJob(r.builds, k, job, r'.builds);
    PlanFirstJob(r.builds, r.jobs, job, k);
    StubsGoFirst(was, brought, held, out);
    assert Copies(out) + [] == Copies(was) + held;
  }

  // -------------------------------------------------------------------- the program

  class Concatenator {
    var enabled: bool
    var buildCount: nat
    var currentBuildId: string
    var fakeJobId: nat
    var buffering: bool
    var buffered: seq<Piece>
    var out: seq<Piece>

    constructor ()
      ensures Tracks(Read([]))
    {
      enabled, buildCount, currentBuildId, fakeJobId := false, 0, "0", 1;
      buffering, buffered, out := false, [], [Prolog];
      new;
      AddPiece([], Prolog, out);
    }

    /** Nothing is held back but for a build whose first job is still to come. */
    ghost predicate Tracks(r: Reader)
      reads this
    {
      && enabled == r.enabled && buildCount == |r.builds| && currentBuildId == r.build
      && buffering == r.Waiting() && (!buffering ==> buffered == [])
      && fakeJobId == |Stubs(r.builds)| + 1
      && Written(out, buffered, r)
    }

    method Emit(piece: Piece)
      modifies this`buffered, this`out
      ensures buffered == if buffering then old(buffered) + [piece] else old(buffered)
      ensures out == if buffering then old(out) else old(out) + [piece]
    {
      if buffering {
        buffered := buffered + [piece];
      } else {
        out := out + [piece];
      }
    }

    method EmitFakeJob(kind: Kind, emitWaiters: bool, extraWaiter: Option<RealJob>)
      requires kind == Follow ==> fakeJobId > 0
      modifies this`out, this`fakeJobId
      ensures out == old(out) + [Stub(Made(kind, old(fakeJobId), emitWaiters, extraWaiter))]
      ensures fakeJobId == old(fakeJobId) + 1
    {
      out := out + [Stub(Made(kind, fakeJobId, emitWaiters, extraWaiter))];
      fakeJobId := fakeJobId + 1;
    }

    method EmitAttrs(attrs: seq<Attr>) returns (r: seq<Attr>)
      ensures r == EscapedAttrs(attrs)
    {
      r := [];
      for i := 0 to |attrs|
        invariant r == EscapedAttrs(attrs)[..i]
      {
        r := r + [Attr(attrs[i].key, EscapeSpecials(attrs[i].value))];
      }
    }

    method EmitIds(ids: seq<string>) returns (r: seq<string>)
      ensures r == ScopedIds(currentBuildId, ids)
    {
      r := [];
      for i := 0 to |ids|
        invariant r == ScopedIds(currentBuildId, ids)[..i]
      {
        r := r + [ScopeJobId(currentBuildId, ids[i])];
      }
    }

    method RenameRefs(attrs: seq<Attr>) returns (r: seq<Attr>)
      ensures r == ScopedAttrs(currentBuildId, attrs)
    {
      r := attrs;
      for i := 0 to |attrs|
        invariant |r| == |attrs|
        invariant forall k :: 0 <= k < i ==> r[k] == ScopedAttrs(currentBuildId, attrs)[k]
        invariant forall k :: i <= k < |attrs| ==> r[k] == attrs[k]
      {
        if !r[i].key.Plain? {
          r := r[i := Attr(r[i].key, ScopeJobId(currentBuildId, r[i].value))];
        }
      }
    }

    /** The first job of a build: its stubs go in front of everything that was held back. */
    method StartBuildJobs(job: RealJob)
      requires buffering && fakeJobId > 0
      modifies this`out, this`fakeJobId, this`buffering, this`buffered
      ensures !buffering && buffered == []
      ensures fakeJobId == old(fakeJobId) + if buildCount > 1 then 2 else 1
      ensures out == old(out) + Brought(old(fakeJobId), buildCount > 1, job) + old(buffered)
    {
      ghost var was, brought := out, Brought(fakeJobId, buildCount > 1, job);
      buffering := false;
      if buildCount > 1 {
        EmitFakeJob(Follow, true, None);
      } else {
        Emit(Make);
      }
      assert out == was + [brought[0]];
      EmitFakeJob(Rule, true, Some(job));
      assert out == was + brought;
      EmitBuffered();
    }

    method StartFirstJob(job: RealJob, ghost r: Reader)
      requires Tracks(r) && buffering
      modifies this`out, this`fakeJobId, this`buffering, this`buffered
      ensures Tracks(r.WithFirst(job)) && !buffering
    {
      ghost var was, held, k, next := out, buffered, fakeJobId, r.WithFirst(job);
      StartBuildJobs(job);
      WrittenFirst(was, held, r, job, k, out, next);
    }

    method EmitKept(piece: Piece, ghost r: Reader)
      requires Tracks(r) && piece.Copied() && !piece.IsJob()
      modifies this`buffered, this`out
      ensures Tracks(r.Keep(piece))
    {
      EmitPlain(piece, r);
    }

    method EmitPlain(piece: Piece, ghost r: Reader)
      requires Written(out, buffered, r) && (!buffering ==> buffered == [])
      requires piece.Copied() && !piece.IsJob()
      modifies this`buffered, this`out
      ensures Written(out, buffered, r.Keep(piece)) && (!buffering ==> buffered == [])
    {
      WrittenKept(out, buffered, r, piece);
      Emit(piece);
    }

    method EmitJob(piece: Piece, ghost r: Reader)
      requires Tracks(r) && piece.IsJob() && !buffering
      modifies this`buffered, this`out
      ensures Tracks(r.KeepJob(piece))
    {
      WrittenJob(out, r, piece);
      Emit(piece);
    }

    method EmitBuffered()
      requires !buffering
      modifies this`out, this`buffered
      ensures out == old(out) + old(buffered) && buffered == []
    {
      out := out + buffered;
      buffered := [];
    }

    /** The last branch of `AnnoElementStart`: everything that is echoed. */
    method StartElement(isJob: bool, name: string, idList: seq<string>, attrs: seq<Attr>, ghost r: Reader)
      requires Tracks(r)
      modifies this
      ensures Tracks(r.Next(StartOther(isJob, name, idList, attrs)))
    {
      if !enabled {
        return;
      }
      if isJob && buffering {
        var job := RealJob(currentBuildId, IdOf(attrs));
        StartFirstJob(job, r);
        EchoElement(isJob, name, idList, attrs, r.WithFirst(job));
      } else {
        EchoElement(isJob, name, idList, attrs, r);
      }
    }

    method EchoElement(isJob: bool, name: string, idList: seq<string>, attrs: seq<Attr>, ghost r: Reader)
      requires Tracks(r) && (isJob ==> !buffering)
      modifies this`out, this`buffered
      ensures var p := Element(isJob, name, ScopedIds(r.build, idList), EscapedAttrs(ScopedAttrs(r.build, attrs)));
        Tracks(if isJob then r.KeepJob(p) else r.Keep(p))
    {
      var ids := EmitIds(idList);
      var renamed := RenameRefs(attrs);
      var shown := EmitAttrs(renamed);
      if isJob {
        EmitJob(Element(isJob, name, ids, shown), r);
      } else {
        EmitKept(Element(isJob, name, ids, shown), r);
      }
    }

    /** `AnnoElementStart`, `AnnoElementEnd` and `AnnoCDATA`. */
    method Handle(e: Event, ghost r: Reader)
      requires Tracks(r)
      modifies this
      ensures Tracks(r.Next(e))
    {
      match e {
        case StartBuild(attrs) => StartBuildTag(attrs, r);
        case StartBlock(block) => StartBlockTag(block, r);
        case StartTiming(attrs) =>
          var shown := EmitAttrs(attrs);
          EmitKept(Timing(shown), r);
        case StartOther(isJob, name, idList, attrs) => StartElement(isJob, name, idList, attrs, r);
        case EndBlock(block) => EndBlockTag(block, r);
        case EndOther(name) => EmitIfEnabled(Close(name), r);
        case EndBuildOrTiming =>
        case Data(data) => EmitIfEnabled(Text(EscapeSpecials(data)), r);
      }
    }

    method EmitIfEnabled(piece: Piece, ghost r: Reader)
      requires Tracks(r) && piece.Copied() && !piece.IsJob()
      modifies this`buffered, this`out
      ensures Tracks(if r.enabled then r.Keep(piece) else r)
    {
      if enabled {
        EmitKept(piece, r);
      }
    }

    method StartBlockTag(block: Block, ghost r: Reader)
      requires Tracks(r)
      modifies this
      ensures Tracks(r.Next(StartBlock(block)))
    {
      if block == Metrics || buildCount > 1 {
        enabled := false;
      } else {
        EmitKept(Open(block), r);
      }
    }

    /** The tag of the first build is kept. */
    method EmitBuildTag(attrs: seq<Attr>, ghost r: Reader)
      requires Tracks(r)
      modifies this`buffered, this`out
      ensures Written(out, buffered, r.Next(StartBuild(attrs)))
    {
      ghost var mid := r.(enabled := true, builds := r.builds + [None], build := IdOf(attrs), jobs := r.jobs + [[]]);
      WrittenBuild(out, buffered, r, mid);
      if buildCount == 0 {
        var shown := EmitAttrs(attrs);
        EmitPlain(Build(shown), mid);
      }
    }

    method StartBuildTag(attrs: seq<Attr>, ghost r: Reader)
      requires Tracks(r)
      modifies this
      ensures Tracks(r.Next(StartBuild(attrs)))
    {
      NewBuild(r.builds, r.builds + [None]);
      EmitBuildTag(attrs, r);
      buildCount := buildCount + 1;
      enabled := true;
      buffering := true;
      currentBuildId := IdOf(attrs);
    }

    /** Everything that was held back comes out. */
    method Flush(ghost r: Reader)
      requires Tracks(r)
      modifies this`out, this`buffered, this`buffering
      ensures Tracks(r) && buffered == []
    {
      WrittenFlushed(out, buffered, r);
      var oldBuffering := buffering;
      buffering := false;
      EmitBuffered();
      buffering := oldBuffering;
    }

    /** The end of a block lets everything out. */
    method EndBlockTag(block: Block, ghost r: Reader)
      requires Tracks(r)
      modifies this
      ensures Tracks(r.Next(EndBlock(block)))
      ensures old(enabled) ==> buffered == []
    {
      if enabled {
        EmitKept(CloseBlock(block), r);
        Flush(r.Keep(CloseBlock(block)));
      }
      enabled := true;
    }

    method EmitEnding(ghost builds: seq<Option<RealJob>>)
      requires fakeJobId == |Stubs(builds)| + 1
      modifies this`out, this`fakeJobId
      ensures out == old(out) + Ending(builds)
      ensures MadeUp(out) == old(MadeUp(out)) + Ending(builds) && Marks(out) == old(Marks(out)) + Ending(builds)
      ensures Copies(out) == old(Copies(out))
    {
      ghost var was, ending := out, Ending(builds);
      EmitFakeJob(Follow, false, None);
      fakeJobId := 0;
      EmitFakeJob(End, false, None);
      assert out == was + ending;
      AddTwo(was, ending[0], ending[1], out);
    }

    /** The last stubs and the closing tags.  The tags go the way of everything else: if the
        last build had no job, they are held back and never come out. */
    method Finish(ghost r: Reader)
      requires Tracks(r)
      modifies this
      ensures MadeUp(out) == Output(r) && Copies(out) + old(buffered) == r.kept
      ensures Marks(out) == Plan(r.builds, r.jobs) + Ending(r.builds) + Closing(r)
      ensures !r.Waiting() ==> out == old(out) + Ending(r.builds) + [EndMake, EndAll]
    {
      EmitEnding(r.builds);
      EmitClosing();
    }

    /** The closing tags. */
    method EmitClosing()
      requires !buffering ==> buffered == []
      modifies this`out, this`buffered
      ensures Copies(out) == old(Copies(out))
      ensures var tags := if buffering then [] else [EndMake, EndAll];
        out == old(out) + tags && MadeUp(out) == old(MadeUp(out)) + tags && Marks(out) == old(Marks(out)) + tags
    {
      ghost var was := out;
      Emit(EndMake);
      Emit(EndAll);
      if !buffering {
        assert out == was + [EndMake, EndAll];
        AddTwo(was, EndMake, EndAll, out);
      }
    }

    /** The whole run: all files, then the last stubs.  Nothing that is kept changes its
        order; it is all there unless the last build has no job.  The stubs of each build
        stand in front of its jobs and behind the jobs of the builds before. */
    method Concatenate(events: seq<Event>)
      requires Tracks(Read([]))
      modifies this
      ensures MadeUp(out) == Output(Read(events))
      ensures var r := Read(events); r.Planned() && Marks(out) == Plan(r.builds, r.jobs) + Ending(r.builds) + Closing(r)
      ensures Copies(out) <= Read(events).kept
      ensures !Read(events).Waiting() ==> Copies(out) == Read(events).kept
      ensures var r := Read(events); KeptAs(events, r.kept) && BuildsAs(events, r.builds) && JobsAs(events, r.jobs)
    {
      for i := 0 to |events|
        invariant Tracks(Read(events[..i]))
      {
        assert events[..i + 1][..i] == events[..i];
        Handle(events[i], Read(events[..i]));
      }
      assert events[..|events|] == events;
      ReadExactly(events);
      Finish(Read(events));
    }
  }
}
