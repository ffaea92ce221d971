/** What `annocat` reads: the events of the parser, the state it is in between them, and what
    it keeps of them.  The reader takes the events in one at a time; what that comes to is then
    stated of the events alone. */
module AnnoReader {
  import opened AnnoText
  import opened Options
  import opened StubChain

  datatype Key = Id | NeededBy | RerunBy | WriteJob | PartOf | Plain(name: string)

  datatype Attr = Attr(key: Key, value: string)

  datatype Block = Environment | Properties | Metrics

  /** What the parser reports, over all files.  `attrs` are in the order in which they are
      enumerated; the ids of an `idList` are already split. */
  datatype Event =
    | StartBuild(attrs: seq<Attr>)
    | StartBlock(block: Block)
    | StartTiming(attrs: seq<Attr>)
    | StartOther(isJob: bool, name: string, idList: seq<string>, attrs: seq<Attr>)
    | EndBlock(block: Block)
    | EndOther(name: string)
    | EndBuildOrTiming
    | Data(data: string)

  /** What is written. */
  datatype Piece =
    | Prolog
    | Build(attrs: seq<Attr>)
    | Open(block: Block)
    | Timing(attrs: seq<Attr>)
    | Element(isJob: bool, name: string, idList: seq<string>, attrs: seq<Attr>)
    | CloseBlock(block: Block)
    | Close(name: string)
    | Text(data: string)
    | Make | EndMake | EndAll
    | Stub(job: FakeJob)
  {
    /** Copied from the input, not made up. */
    predicate Copied() {
      !(Make? || EndMake? || EndAll? || Stub?)
    }

    predicate IsJob() {
      Element? && isJob
    }
  }

  // --------------------------------------------------------------------- the reader

  function EscapedAttr(a: Attr): Attr {
    Attr(a.key, EscapeSpecials(a.value))
  }

  function EscapedAttrs(attrs: seq<Attr>): seq<Attr> {
    seq(|attrs|, i requires 0 <= i < |attrs| => EscapedAttr(attrs[i]))
  }

  /** Attributes that refer to a job are renamed. */
  function ScopedAttrs(build: string, attrs: seq<Attr>): seq<Attr> {
    seq(|attrs|, i requires 0 <= i < |attrs| =>
      if attrs[i].key.Plain? then attrs[i] else Attr(attrs[i].key, ScopeJobId(build, attrs[i].value)))
  }

  function ScopedIds(build: string, ids: seq<string>): seq<string> {
    seq(|ids|, i requires 0 <= i < |ids| => ScopeJobId(build, ids[i]))
  }

  /** The value of the `id` attribute; empty if there is none. */
  function IdOf(attrs: seq<Attr>): string {
    if attrs == [] then "" else if attrs[0].key == Id then attrs[0].value else IdOf(attrs[1..])
  }

  /** What has been read: whether copying is on, the builds so far, each with its first job
      if it has had one, the id of the latest, everything worth copying, and the jobs among
      that, build by build behind those before the first build. */
  datatype Reader = Reader(enabled: bool, builds: seq<Option<RealJob>>, build: string, kept: seq<Piece>, jobs: seq<seq<Piece>>)
  {
    /** The latest build has had no job yet. */
    predicate Waiting() {
      builds != [] && builds[|builds| - 1] == None
    }

    function Keep(p: Piece): Reader {
      this.(kept := kept + [p])
    }

    function WithFirst(job: RealJob): Reader
      requires builds != []
    {
      this.(builds := builds[|builds| - 1 := Some(job)])
    }

    function KeepJob(p: Piece): Reader {
      var last := |jobs| - 1;
      if jobs == [] then Keep(p) else Keep(p).(jobs := jobs[last := jobs[last] + [p]])
    }

    /** Jobs are where they belong: exactly the builds with a first job have any. */
    ghost predicate Planned() {
      |jobs| == |builds| + 1 && forall k :: 0 <= k < |builds| ==> (builds[k].Some? <==> jobs[k + 1] != [])
    }

    function Next(e: Event): Reader {
      match e
      case StartBuild(attrs) =>
        var r := this.(enabled := true, builds := builds + [None], build := IdOf(attrs), jobs := jobs + [[]]);
        if builds == [] then r.Keep(Build(EscapedAttrs(attrs))) else r
      case StartBlock(block) =>
        if block == Metrics then this.(enabled := false)
        else if |builds| > 1 then this.(enabled := false)
        else Keep(Open(block))
      case StartTiming(attrs) => Keep(Timing(EscapedAttrs(attrs)))
      case StartOther(isJob, name, idList, attrs) =>
        if !enabled then this
        else
          var p := Element(isJob, name, ScopedIds(build, idList), EscapedAttrs(ScopedAttrs(build, attrs)));
          var r := if isJob && Waiting() then WithFirst(RealJob(build, IdOf(attrs))) else this;
          if isJob then r.KeepJob(p) else r.Keep(p)
      case EndBlock(block) => if enabled then Keep(CloseBlock(block)) else this.(enabled := true)
      case EndOther(name) => if enabled then Keep(Close(name)) else this
      case EndBuildOrTiming => this
      case Data(data) => if enabled then Keep(Text(EscapeSpecials(data))) else this
    }
  }

  function Read(events: seq<Event>): Reader {
    if events == [] then Reader(false, [], "0", [Prolog], [[]])
    else Read(events[..|events| - 1]).Next(events[|events| - 1])
  }

  lemma {:induction false} ReadIsPlanned(events: seq<Event>)
    ensures Read(events).Planned()
  {
    if events != [] {
      ReadIsPlanned(events[..|events| - 1]);
    }
  }

  // ------------------------------------------------- what is kept, event by event

  /** How many builds start in front of event `i`. */
  ghost function Builds(events: seq<Event>, i: nat): nat
    requires i <= |events|
  {
    if i == 0 then 0 else Builds(events, i - 1) + if events[i - 1].StartBuild? then 1 else 0
  }

  /** The id of the latest build that starts in front of event `i`. */
  ghost function BuildIdAt(events: seq<Event>, i: nat): string
    requires i <= |events|
  {
    if i == 0 then "0" else if events[i - 1].StartBuild? then IdOf(events[i - 1].attrs) else BuildIdAt(events, i - 1)
  }

  ghost predicate SwitchesOn(e: Event) {
    e.StartBuild? || e.EndBlock?
  }

  /** A metrics block, and any block of a build other than the first. */
  ghost predicate SwitchesOff(events: seq<Event>, i: nat)
    requires i < |events|
  {
    events[i].StartBlock? && (events[i].block == Metrics || Builds(events, i) > 1)
  }

  /** Event `i` comes behind one that switches copying on, and none in between switches it off. */
  ghost predicate Copying(events: seq<Event>, i: nat)
    requires i <= |events|
  {
    exists s :: 0 <= s < i && SwitchesOn(events[s]) && forall k :: s < k < i ==> !SwitchesOff(events, k)
  }

  ghost predicate AreEscaped(shown: seq<Attr>, attrs: seq<Attr>) {
    |shown| == |attrs| && forall k :: 0 <= k < |attrs| ==> shown[k] == Attr(attrs[k].key, EscapeSpecials(attrs[k].value))
  }

  /** The attributes that name a job are scoped by the build, and all values are escaped. */
  ghost predicate AreScoped(shown: seq<Attr>, build: string, attrs: seq<Attr>) {
    && |shown| == |attrs|
    && forall k :: 0 <= k < |attrs| ==>
         && shown[k].key == attrs[k].key
         && shown[k].value == EscapeSpecials(
              if attrs[k].key.Plain? then attrs[k].value else ScopeJobId(build, attrs[k].value))
  }

  ghost predicate AreScopedIds(shown: seq<string>, build: string, ids: seq<string>) {
    |shown| == |ids| && forall k :: 0 <= k < |ids| ==> shown[k] == ScopeJobId(build, ids[k])
  }

  /** Event `i` is kept, as piece `p`. */
  ghost predicate Gives(events: seq<Event>, i: nat, p: Piece)
    requires i < |events|
  {
    match events[i]
    case StartBuild(attrs) => Builds(events, i) == 0 && p.Build? && AreEscaped(p.attrs, attrs)
    case StartBlock(block) => !SwitchesOff(events, i) && p == Open(block)
    case StartTiming(attrs) => p.Timing? && AreEscaped(p.attrs, attrs)
    case StartOther(isJob, name, idList, attrs) =>
      && Copying(events, i) && p.Element? && p.isJob == isJob && p.name == name
      && AreScopedIds(p.idList, BuildIdAt(events, i), idList) && AreScoped(p.attrs, BuildIdAt(events, i), attrs)
    case EndBlock(block) => Copying(events, i) && p == CloseBlock(block)
    case EndOther(name) => Copying(events, i) && p == Close(name)
    case EndBuildOrTiming => false
    case Data(data) => Copying(events, i) && p == Text(EscapeSpecials(data))
  }

  ghost predicate Increasing(s: seq<nat>, n: nat) {
    (forall k :: 0 <= k < |s| ==> s[k] < n) && forall j, k :: 0 <= j < k < |s| ==> s[j] < s[k]
  }

  /** Behind the prolog, the pieces are what the first `n` events give, in their order. */
  ghost predicate Sourced(events: seq<Event>, n: nat, source: seq<nat>, pieces: seq<Piece>)
    requires n <= |events|
  {
    && |pieces| == |source| + 1 && pieces[0] == Prolog && Increasing(source, n)
    && (forall k :: 0 <= k < |source| ==> Gives(events, source[k], pieces[k + 1]))
    && (forall i, p :: 0 <= i < n && Gives(events, i, p) ==> i in source)
  }

  /** The reader is where the events say. */
  ghost predicate ReadsUpTo(events: seq<Event>, n: nat, r: Reader)
    requires n <= |events|
  {
    (r.enabled <==> Copying(events, n)) && |r.builds| == Builds(events, n) && r.build == BuildIdAt(events, n)
  }

  lemma ReadNext(events: seq<Event>, n: nat, next: nat)
    requires n < |events| && next == n + 1
    ensures Read(events[..next]) == Read(events[..n]).Next(events[n])
  {
    assert events[..next][..n] == events[..n];
  }

  lemma CopyingNext(events: seq<Event>, n: nat, next: nat)
    requires n < |events| && next == n + 1
    ensures Copying(events, next) <==> SwitchesOn(events[n]) || (Copying(events, n) && !SwitchesOff(events, n))
  {
    if SwitchesOn(events[n]) {
      assert n < next;
    }
  }

  lemma StateNext(events: seq<Event>, n: nat, r: Reader, next: nat)
    requires n < |events| && next == n + 1 && ReadsUpTo(events, n, r)
    ensures ReadsUpTo(events, next, r.Next(events[n]))
  {
    CopyingNext(events, n, next);
  }

  lemma {:induction false} ReadState(events: seq<Event>, n: nat)
    requires n <= |events|
    ensures ReadsUpTo(events, n, Read(events[..n]))
  {
    if n > 0 {
      ReadState(events, n - 1);
      ReadNext(events, n - 1, n);
      StateNext(events, n - 1, Read(events[..n - 1]), n);
    }
  }

  /** What the reader keeps of one event. */
  lemma KeepsGiven(events: seq<Event>, n: nat, r: Reader) returns (given: Option<Piece>)
    requires n < |events| && ReadsUpTo(events, n, r)
    ensures r.Next(events[n]).kept == r.kept + if given.Some? then [given.value] else []
    ensures if given.Some? then Gives(events, n, given.value) else forall p :: !Gives(events, n, p)
  {
    var kept := r.Next(events[n]).kept;
    if kept == r.kept {
      given := None;
    } else {
      given := Some(kept[|kept| - 1]);
    }
  }

  lemma OneMoreSource(events: seq<Event>, n: nat, source: seq<nat>, pieces: seq<Piece>, given: Option<Piece>, next: nat)
    requires n < |events| && next == n + 1 && Sourced(events, n, source, pieces)
    requires if given.Some? then Gives(events, n, given.value) else forall p :: !Gives(events, n, p)
    ensures if given.Some? then Sourced(events, next, source + [n], pieces + [given.value])
            else Sourced(events, next, source, pieces)
  {
  }

  /** What is kept, exactly: one piece for every event that gives one, in the order of the
      events. */
  lemma {:induction false} KeptExactly(events: seq<Event>, n: nat) returns (source: seq<nat>)
    requires n <= |events|
    ensures Sourced(events, n, source, Read(events[..n]).kept)
  {
    if n == 0 {
      source := [];
    } else {
      source := KeptExactly(events, n - 1);
      ReadState(events, n - 1);
      ReadNext(events, n - 1, n);
      var given := KeepsGiven(events, n - 1, Read(events[..n - 1]));
      OneMoreSource(events, n - 1, source, Read(events[..n - 1]).kept, given, n);
      source := if given.Some? then source + [n - 1] else source;
    }
  }

  /** Behind the start of a metrics block, or of any block of a build other than the first, and
      up to the next build or end of a block, nothing is kept: no element, no end of one, no
      text and not the end of the block.  Only timings and the starts of blocks that are kept
      themselves get through. */
  lemma SwitchedOffIsSilent(events: seq<Event>, s: nat, i: nat)
    requires s < i < |events| && SwitchesOff(events, s) && forall k :: s < k < i ==> !SwitchesOn(events[k])
    ensures forall p :: !Gives(events, s, p)
    ensures forall p :: Gives(events, i, p) ==> p.Timing? || p.Open? || p.Build?
    ensures forall p :: Gives(events, i, p) && p.Open? ==> p.block != Metrics && Builds(events, i) <= 1
  {
    assert !Copying(events, i);
  }

  /** The id is that of the first `id` attribute. */
  lemma {:induction false} IdOfExactly(attrs: seq<Attr>)
    ensures (IdOf(attrs) == "" && forall k :: 0 <= k < |attrs| ==> attrs[k].key != Id)
      || exists k :: 0 <= k < |attrs| && attrs[k] == Attr(Id, IdOf(attrs)) && forall i :: 0 <= i < k ==> attrs[i].key != Id
  {
    if attrs != [] && attrs[0].key != Id {
      var rest := attrs[1..];
      IdOfExactly(rest);
      if k :| 0 <= k < |rest| && rest[k] == Attr(Id, IdOf(rest)) && forall i :: 0 <= i < k ==> rest[i].key != Id {
        assert attrs[k + 1] == Attr(Id, IdOf(attrs));
        forall i | 0 <= i < k + 1
          ensures attrs[i].key != Id
        {
          assert i > 0 ==> attrs[i] == rest[i - 1];
        }
      } else {
        forall i | 0 <= i < |attrs|
          ensures attrs[i].key != Id
        {
          assert i > 0 ==> attrs[i] == rest[i - 1];
        }
      }
    }
  }

  // ------------------------------------------------------- builds and jobs, likewise

  /** Event `j` is a job that is kept. */
  ghost predicate JobAt(events: seq<Event>, j: nat)
    requires j < |events|
  {
    events[j].StartOther? && events[j].isJob && Copying(events, j)
  }

  /** One of the build that starts with event `b`. */
  ghost predicate JobOf(events: seq<Event>, b: nat, j: nat)
    requires b < |events| && j < |events|
  {
    b < j && JobAt(events, j) && forall i :: b < i < j ==> !events[i].StartBuild?
  }

  /** `first` is the first job of the build that starts with event `b`, if it has any. */
  ghost predicate FirstOf(events: seq<Event>, n: nat, b: nat, first: Option<RealJob>)
    requires n <= |events| && b < n
  {
    match first
    case None => forall j :: 0 <= j < n ==> !JobOf(events, b, j)
    case Some(job) =>
      exists j :: 0 <= j < n && JobOf(events, b, j) && (forall i :: 0 <= i < j ==> !JobOf(events, b, i))
        && events[b].StartBuild? && job == RealJob(IdOf(events[b].attrs), IdOf(events[j].attrs))
  }

  /** Where the builds start, and what their first jobs are. */
  ghost predicate BuildsFrom(events: seq<Event>, n: nat, starts: seq<nat>, builds: seq<Option<RealJob>>)
    requires n <= |events|
  {
    && |builds| == |starts| && Increasing(starts, n)
    && (forall k :: 0 <= k < |starts| ==> events[starts[k]].StartBuild?)
    && (forall i :: 0 <= i < n && events[i].StartBuild? ==> i in starts)
    && (forall k :: 0 <= k < |starts| ==> FirstOf(events, n, starts[k], builds[k]))
  }

  lemma IdOfLatest(events: seq<Event>, n: nat, b: nat)
    requires b < n <= |events| && events[b].StartBuild? && forall i :: b < i < n ==> !events[i].StartBuild?
    ensures BuildIdAt(events, n) == IdOf(events[b].attrs)
    decreases n
  {
    if b < n - 1 {
      IdOfLatest(events, n - 1, b);
    }
  }

  lemma FirstStays(events: seq<Event>, n: nat, b: nat, first: Option<RealJob>, next: nat)
    requires b < n < |events| && next == n + 1 && FirstOf(events, n, b, first)
    requires first.Some? || !JobOf(events, b, n)
    ensures FirstOf(events, next, b, first)
  {
  }

  lemma FirstComes(events: seq<Event>, n: nat, b: nat, job: RealJob, next: nat)
    requires b < n < |events| && next == n + 1 && FirstOf(events, n, b, None) && JobOf(events, b, n)
    requires events[b].StartBuild? && job == RealJob(IdOf(events[b].attrs), IdOf(events[n].attrs))
    ensures FirstOf(events, next, b, Some(job))
  {
  }

  lemma BuildStarts(events: seq<Event>, n: nat, starts: seq<nat>, builds: seq<Option<RealJob>>, next: nat)
    requires n < |events| && next == n + 1 && BuildsFrom(events, n, starts, builds) && events[n].StartBuild?
    ensures BuildsFrom(events, next, starts + [n], builds + [None])
  {
    forall k | 0 <= k < |starts|
      ensures FirstOf(events, next, starts[k], builds[k])
    {
      FirstStays(events, n, starts[k], builds[k], next);
    }
  }

  /** A kept job is one of the latest build only. */
  lemma JobOfLatest(events: seq<Event>, n: nat, starts: seq<nat>, k: nat)
    requires n < |events| && Increasing(starts, n) && k < |starts| && JobAt(events, n)
    requires forall i :: 0 <= i < |starts| ==> events[starts[i]].StartBuild?
    requires forall i :: 0 <= i < n && events[i].StartBuild? ==> i in starts
    ensures JobOf(events, starts[k], n) <==> k == |starts| - 1
  {
    var last := |starts| - 1;
    if k < last {
      assert starts[k] < starts[last] < n;
    }
  }

  lemma NextBuilds(events: seq<Event>, n: nat, r: Reader, after: seq<Option<RealJob>>)
    requires n < |events| && ReadsUpTo(events, n, r) && !events[n].StartBuild? && after == r.Next(events[n]).builds
    ensures JobAt(events, n) && r.Waiting() ==>
      after == r.builds[|r.builds| - 1 := Some(RealJob(BuildIdAt(events, n), IdOf(events[n].attrs)))]
    ensures !(JobAt(events, n) && r.Waiting()) ==> after == r.builds
  {
  }

  lemma NextFirst(events: seq<Event>, n: nat, starts: seq<nat>, r: Reader, k: nat, first: Option<RealJob>, next: nat)
    requires n < |events| && next == n + 1 && BuildsFrom(events, n, starts, r.builds) && !events[n].StartBuild?
    requires ReadsUpTo(events, n, r) && k < |starts| && first == r.Next(events[n]).builds[k]
    ensures FirstOf(events, next, starts[k], first)
  {
    var last := |starts| - 1;
    NextBuilds(events, n, r, r.Next(events[n]).builds);
    if JobAt(events, n) {
      JobOfLatest(events, n, starts, k);
    }
    if k == last && r.Waiting() && JobAt(events, n) {
      IdOfLatest(events, n, starts[k]);
      FirstComes(events, n, starts[k], first.value, next);
    } else {
      FirstStays(events, n, starts[k], r.builds[k], next);
    }
  }

  lemma NoBuildStarts(events: seq<Event>, n: nat, starts: seq<nat>, r: Reader, next: nat)
    requires n < |events| && next == n + 1 && BuildsFrom(events, n, starts, r.builds) && !events[n].StartBuild?
    requires ReadsUpTo(events, n, r)
    ensures BuildsFrom(events, next, starts, r.Next(events[n]).builds)
  {
    var after := r.Next(events[n]).builds;
    NextBuilds(events, n, r, after);
    forall k | 0 <= k < |starts|
      ensures FirstOf(events, next, starts[k], after[k])
    {
      NextFirst(events, n, starts, r, k, after[k], next);
    }
  }

  /** The builds of a run, exactly: each with the first kept job behind its start and in front
      of the next build's, under the ids of both. */
  lemma {:induction false} BuildsExactly(events: seq<Event>, n: nat) returns (starts: seq<nat>)
    requires n <= |events|
    ensures BuildsFrom(events, n, starts, Read(events[..n]).builds)
  {
    if n == 0 {
      starts := [];
    } else {
      starts := BuildsExactly(events, n - 1);
      ReadState(events, n - 1);
      ReadNext(events, n - 1, n);
      var r := Read(events[..n - 1]);
      if events[n - 1].StartBuild? {
        BuildStarts(events, n - 1, starts, r.builds, n);
        starts := starts + [n - 1];
      } else {
        NoBuildStarts(events, n - 1, starts, r, n);
      }
    }
  }

  /** The pieces are the kept jobs that stand behind `m` starts of builds, in their order. */
  ghost predicate JobsFrom(events: seq<Event>, n: nat, m: nat, source: seq<nat>, pieces: seq<Piece>)
    requires n <= |events|
  {
    && |pieces| == |source| && Increasing(source, n)
    && (forall k :: 0 <= k < |source| ==>
          JobAt(events, source[k]) && Builds(events, source[k]) == m && Gives(events, source[k], pieces[k]))
    && (forall j :: 0 <= j < n && JobAt(events, j) && Builds(events, j) == m ==> j in source)
  }

  lemma {:induction false} BuildsGrow(events: seq<Event>, i: nat, n: nat)
    requires i <= n <= |events|
    ensures Builds(events, i) <= Builds(events, n)
    decreases n
  {
    if i < n {
      BuildsGrow(events, i, n - 1);
    }
  }

  lemma NoJobsYet(events: seq<Event>, n: nat, m: nat)
    requires 0 < n <= |events| && Builds(events, n - 1) < m && events[n - 1].StartBuild?
    ensures JobsFrom(events, n, m, [], [])
  {
    forall j | 0 <= j < n
      ensures Builds(events, j) != m
    {
      BuildsGrow(events, j, n - 1);
    }
  }

  lemma NextJobs(events: seq<Event>, n: nat, m: nat, r: Reader, after: seq<seq<Piece>>) returns (p: Piece)
    requires n < |events| && ReadsUpTo(events, n, r) && |r.jobs| == |r.builds| + 1 && m < |r.jobs|
    requires after == r.Next(events[n]).jobs
    ensures m < |after| && var ours := JobAt(events, n) && Builds(events, n) == m;
      if ours then Gives(events, n, p) && after[m] == r.jobs[m] + [p] else after[m] == r.jobs[m]
  {
    p := EndAll;
    if JobAt(events, n) {
      var e := events[n];
      p := Element(true, e.name, ScopedIds(r.build, e.idList), EscapedAttrs(ScopedAttrs(r.build, e.attrs)));
    }
  }

  lemma OneMoreJob(events: seq<Event>, n: nat, m: nat, source: seq<nat>, pieces: seq<Piece>, p: Piece, next: nat)
    requires n < |events| && next == n + 1 && JobsFrom(events, n, m, source, pieces)
    ensures var ours := JobAt(events, n) && Builds(events, n) == m;
      if ours then Gives(events, n, p) ==> JobsFrom(events, next, m, source + [n], pieces + [p])
      else JobsFrom(events, next, m, source, pieces)
  {
    if JobAt(events, n) && Builds(events, n) == m {
      JobComes(events, n, m, source, pieces, p, next);
    } else {
      forall j | 0 <= j < next && JobAt(events, j) && Builds(events, j) == m
        ensures j in source
      {
        assert j < n;
      }
    }
  }

  lemma JobComes(events: seq<Event>, n: nat, m: nat, source: seq<nat>, pieces: seq<Piece>, p: Piece, next: nat)
    requires n < |events| && next == n + 1 && JobsFrom(events, n, m, source, pieces)
    requires JobAt(events, n) && Builds(events, n) == m
    ensures Gives(events, n, p) ==> JobsFrom(events, next, m, source + [n], pieces + [p])
  {
    var more, all := source + [n], pieces + [p];
    assert more[|source|] == n && all[|source|] == p;
    forall k | 0 <= k < |source|
      ensures JobAt(events, more[k]) && Builds(events, more[k]) == m && Gives(events, more[k], all[k])
    {
      assert more[k] == source[k] && all[k] == pieces[k];
    }
    forall j | 0 <= j < next && JobAt(events, j) && Builds(events, j) == m
      ensures j in more
    {
      assert j < n ==> j in source;
    }
  }

  lemma JobsPerBuild(events: seq<Event>, n: nat)
    requires n <= |events|
    ensures |Read(events[..n]).jobs| == Builds(events, n) + 1
  {
    ReadState(events, n);
    ReadIsPlanned(events[..n]);
  }

  lemma JobsStart(events: seq<Event>, n: nat, next: nat)
    requires n < |events| && next == n + 1 && events[n].StartBuild?
    ensures |Read(events[..n]).jobs| == Builds(events, n) + 1
    ensures Read(events[..next]).jobs == Read(events[..n]).jobs + [[]]
  {
    JobsPerBuild(events, n);
    ReadNext(events, n, next);
  }

  lemma JobsNext(events: seq<Event>, n: nat, m: nat, most: seq<nat>, next: nat) returns (source: seq<nat>)
    requires n < |events| && next == n + 1
    requires m < |Read(events[..n]).jobs| && JobsFrom(events, n, m, most, Read(events[..n]).jobs[m])
    ensures m < |Read(events[..next]).jobs| && JobsFrom(events, next, m, source, Read(events[..next]).jobs[m])
  {
    var r := Read(events[..n]);
    JobsPerBuild(events, n);
    ReadState(events, n);
    ReadNext(events, n, next);
    var p := NextJobs(events, n, m, r, r.Next(events[n]).jobs);
    OneMoreJob(events, n, m, most, r.jobs[m], p, next);
    source := if JobAt(events, n) && Builds(events, n) == m then most + [n] else most;
  }

  /** The jobs of a build, exactly: every kept job behind its start and in front of the next
      build's, in the order of the events. */
  lemma {:induction false} JobsExactly(events: seq<Event>, n: nat, m: nat) returns (source: seq<nat>)
    requires n <= |events| && m <= Builds(events, n)
    ensures m < |Read(events[..n]).jobs| && JobsFrom(events, n, m, source, Read(events[..n]).jobs[m])
  {
    if n == 0 {
      source := [];
    } else if m <= Builds(events, n - 1) {
      var most := JobsExactly(events, n - 1, m);
      source := JobsNext(events, n - 1, m, most, n);
    } else {
      NoJobsYet(events, n, m);
      JobsStart(events, n - 1, n);
      source := [];
    }
  }

  ghost predicate KeptAs(events: seq<Event>, kept: seq<Piece>) {
    exists source :: Sourced(events, |events|, source, kept)
  }

  ghost predicate BuildsAs(events: seq<Event>, builds: seq<Option<RealJob>>) {
    exists starts :: BuildsFrom(events, |events|, starts, builds)
  }

  ghost predicate JobsAs(events: seq<Event>, jobs: seq<seq<Piece>>) {
    forall m :: 0 <= m < |jobs| ==> JobsOfBuild(events, m, jobs[m])
  }

  ghost predicate JobsOfBuild(events: seq<Event>, m: nat, pieces: seq<Piece>) {
    exists source :: JobsFrom(events, |events|, m, source, pieces)
  }

  /** All of it for a whole run. */
  lemma ReadExactly(events: seq<Event>)
    ensures var r := Read(events);
      KeptAs(events, r.kept) && BuildsAs(events, r.builds) && JobsAs(events, r.jobs) && r.Planned()
  {
    var n := |events|;
    assert events[..n] == events;
    var source := KeptExactly(events, n);
    var starts := BuildsExactly(events, n);
    JobsPerBuild(events, n);
    ReadIsPlanned(events);
    forall m | 0 <= m < |Read(events).jobs|
      ensures JobsOfBuild(events, m, Read(events).jobs[m])
    {
      var source := JobsExactly(events, n, m);
    }
  }
}
