/** The second half of the utilization report: the stably sorted events, and the sweep over
    them. */
module UtilizationSweep {
  import opened AgentUtilization

  // ------------------------------------------------------------------ stable sorting

  /** Put an event behind all events that are not later. */
  function Insert(sorted: seq<Event>, e: Event): (r: seq<Event>)
    ensures |r| == |sorted| + 1
  {
    if sorted == [] || sorted[|sorted| - 1].t <= e.t then sorted + [e]
    else Insert(sorted[..|sorted| - 1], e) + [sorted[|sorted| - 1]]
  }

  /** `lsort -real -increasing -index 0`, which is stable. */
  function SortedEvents(events: seq<Event>): (r: seq<Event>)
    ensures |r| == |events|
  {
    if events == [] then [] else Insert(SortedEvents(events[..|events| - 1]), events[|events| - 1])
  }

  ghost predicate InOrder(events: seq<Event>) {
    forall i, j :: 0 <= i <= j < |events| ==> events[i].t <= events[j].t
  }

  /** The events of one time, in their order. */
  function AtTime(events: seq<Event>, t: real): seq<Event> {
    if events == [] then []
    else AtTime(events[..|events| - 1], t) + if events[|events| - 1].t == t then [events[|events| - 1]] else []
  }

  lemma {:induction false} InsertInOrder(sorted: seq<Event>, e: Event)
    requires InOrder(sorted)
    ensures InOrder(Insert(sorted, e))
    ensures forall i :: 0 <= i < |sorted| + 1 ==> Insert(sorted, e)[i] == e || Insert(sorted, e)[i] in sorted
  {
    if !(sorted == [] || sorted[|sorted| - 1].t <= e.t) {
      InsertInOrder(sorted[..|sorted| - 1], e);
    }
  }

  lemma {:induction false} InsertAtTime(sorted: seq<Event>, e: Event, t: real)
    requires InOrder(sorted)
    ensures AtTime(Insert(sorted, e), t) == AtTime(sorted, t) + if e.t == t then [e] else []
  {
    var n := |sorted| - 1;
    var r := Insert(sorted, e);
    if sorted == [] || sorted[n].t <= e.t {
      assert r[..|r| - 1] == sorted;
    } else {
      InsertAtTime(sorted[..n], e, t);
      assert r[..|r| - 1] == Insert(sorted[..n], e);
    }
  }

  /** The result is in order and keeps the order of events of the same time. */
  lemma {:induction false} SortIsStable(events: seq<Event>, t: real)
    ensures InOrder(SortedEvents(events))
    ensures AtTime(SortedEvents(events), t) == AtTime(events, t)
  {
    if events != [] {
      SortIsStable(events[..|events| - 1], t);
      InsertInOrder(SortedEvents(events[..|events| - 1]), events[|events| - 1]);
      InsertAtTime(SortedEvents(events[..|events| - 1]), events[|events| - 1], t);
    }
  }

  lemma {:induction false} NoneAfterLast(events: seq<Event>, t: real)
    requires InOrder(events) && AtTime(events, t) != []
    ensures events != [] && t <= events[|events| - 1].t
  {
    if events != [] && events[|events| - 1].t != t {
      NoneAfterLast(events[..|events| - 1], t);
    }
  }

  /** Any stable sort computes the same: a list in order is determined by what it has at
      each time. */
  lemma {:induction false} StableSortIsUnique(a: seq<Event>, b: seq<Event>)
    requires InOrder(a) && InOrder(b)
    requires forall t :: AtTime(a, t) == AtTime(b, t)
    ensures a == b
    decreases |a|
  {
    NothingAtAnyTime(b);
    if a != [] {
      SameLast(a, b);
      var m, n := |a| - 1, |b| - 1;
      forall t
        ensures AtTime(a[..m], t) == AtTime(b[..n], t)
      {
        DropLast(a, b, t);
      }
      StableSortIsUnique(a[..m], b[..n]);
      assert a == a[..m] + [a[m]] && b == b[..n] + [b[n]];
    }
  }

  lemma DropLast(a: seq<Event>, b: seq<Event>, t: real)
    requires a != [] && b != [] && a[|a| - 1] == b[|b| - 1] && AtTime(a, t) == AtTime(b, t)
    ensures AtTime(a[..|a| - 1], t) == AtTime(b[..|b| - 1], t)
  {
    var m, n := |a| - 1, |b| - 1;
    var x := if a[m].t == t then [a[m]] else [];
    assert AtTime(a[..m], t) == AtTime(a, t)[..|AtTime(a, t)| - |x|];
    assert AtTime(b[..n], t) == AtTime(b, t)[..|AtTime(b, t)| - |x|];
  }

  lemma NothingAtAnyTime(events: seq<Event>)
    ensures events == [] || exists t :: AtTime(events, t) != []
  {
    if events != [] {
      LastAtItsTime(events);
      assert AtTime(events, events[|events| - 1].t) != [];
    }
  }

  lemma LastAtItsTime(events: seq<Event>)
    requires events != []
    ensures var last := events[|events| - 1];
      AtTime(events, last.t) != [] && AtTime(events, last.t)[|AtTime(events, last.t)| - 1] == last
  {
  }

  lemma SameLast(a: seq<Event>, b: seq<Event>)
    requires a != [] && InOrder(a) && InOrder(b) && forall t :: AtTime(a, t) == AtTime(b, t)
    ensures b != [] && a[|a| - 1] == b[|b| - 1]
  {
    LastAtItsTime(a);
    NoneAfterLast(b, a[|a| - 1].t);
    LastAtItsTime(b);
    NoneAfterLast(a, b[|b| - 1].t);
  }

  // ------------------------------------------------------------------- running count

  /** The count before event `k`: the types of all earlier events added up. */
  function Count(events: seq<Event>, k: nat): int
    requires k <= |events|
  {
    if k == 0 then 0 else Count(events, k - 1) + events[k - 1].e
  }

  /** Where an event at time `t` is inserted. */
  function Place(sorted: seq<Event>, t: real): (p: nat)
    ensures p <= |sorted|
  {
    if sorted == [] || sorted[|sorted| - 1].t <= t then |sorted| else Place(sorted[..|sorted| - 1], t)
  }

  lemma {:induction false} InsertAtPlace(sorted: seq<Event>, e: Event)
    ensures Insert(sorted, e) == sorted[..Place(sorted, e.t)] + [e] + sorted[Place(sorted, e.t)..]
  {
    if !(sorted == [] || sorted[|sorted| - 1].t <= e.t) {
      var n := |sorted| - 1;
      InsertAtPlace(sorted[..n], e);
      var p := Place(sorted, e.t);
      assert sorted[p..] == sorted[..n][p..] + [sorted[n]];
      assert sorted[..p] == sorted[..n][..p];
    }
  }

  lemma {:induction false} CountInsert(s: seq<Event>, p: nat, e: Event, k: nat)
    requires p <= |s| && k <= |s| + 1
    ensures Count(s[..p] + [e] + s[p..], k) == if k <= p then Count(s, k) else Count(s, k - 1) + e.e
  {
    if k > 0 {
      CountInsert(s, p, e, k - 1);
    }
  }

  /** Never negative, and back at zero when all events have passed. */
  ghost predicate Balanced(events: seq<Event>) {
    && (forall k :: 0 <= k <= |events| ==> Count(events, k) >= 0)
    && Count(events, |events|) == 0
  }

  lemma {:induction false} PlaceAfter(sorted: seq<Event>, t: real, e: Event)
    requires InOrder(sorted) && e.t <= t
    ensures Place(Insert(sorted, e), t) > Place(sorted, e.t)
  {
    var n := |sorted| - 1;
    var r := Insert(sorted, e);
    if !(sorted == [] || sorted[n].t <= e.t) {
      PlaceAfter(sorted[..n], t, e);
      assert r[..|r| - 1] == Insert(sorted[..n], e);
    }
  }

  lemma CountInsertPair(sorted: seq<Event>, i: Interval, k: nat)
    requires InOrder(sorted) && i.start <= i.finish && k <= |sorted| + 2
    ensures var once := Insert(sorted, Event(i.start, START));
      var p, q := Place(sorted, i.start), Place(once, i.finish);
      && p < q
      && Count(Insert(once, Event(i.finish, FINISH)), k) ==
           if k <= p then Count(sorted, k) else if k <= q then Count(sorted, k - 1) + 1 else Count(sorted, k - 2)
  {
    var start, finish := Event(i.start, START), Event(i.finish, FINISH);
    var once := Insert(sorted, start);
    InsertAtPlace(sorted, start);
    InsertAtPlace(once, finish);
    PlaceAfter(sorted, i.finish, start);
    var q := Place(once, i.finish);
    CountInsert(once, q, finish, k);
    CountInsert(sorted, Place(sorted, i.start), start, if k <= q then k else k - 1);
  }

  lemma PairKeepsBalance(sorted: seq<Event>, i: Interval)
    requires InOrder(sorted) && Balanced(sorted) && i.start <= i.finish
    ensures Balanced(Insert(Insert(sorted, Event(i.start, START)), Event(i.finish, FINISH)))
  {
    var twice := Insert(Insert(sorted, Event(i.start, START)), Event(i.finish, FINISH));
    forall k | 0 <= k <= |twice|
      ensures Count(twice, k) >= 0
    {
      CountInsertPair(sorted, i, k);
    }
    CountInsertPair(sorted, i, |twice|);
  }

  /** Sorted stably, the events of proper intervals never drive the count below zero. */
  lemma {:induction false} CountNeverNegative(intervals: seq<Interval>)
    requires Proper(intervals)
    ensures Balanced(SortedEvents(EventsOf(intervals)))
  {
    if intervals == [] {
      assert SortedEvents(EventsOf(intervals)) == [];
    } else {
      var n := |intervals| - 1;
      var before := EventsOf(intervals[..n]);
      CountNeverNegative(intervals[..n]);
      SortIsStable(before, 0.0);
      PairKeepsBalance(SortedEvents(before), intervals[n]);
      SortTwoMore(before, Event(intervals[n].start, START), Event(intervals[n].finish, FINISH));
    }
  }

  lemma SortTwoMore(events: seq<Event>, a: Event, b: Event)
    ensures SortedEvents(events + [a, b]) == Insert(Insert(SortedEvents(events), a), b)
  {
    var all := events + [a, b];
    assert all[..|all| - 1] == events + [a];
    assert (events + [a])[..|events|] == events;
  }

  // --------------------------------------------------- what the count stands for

  /** How many intervals are under way at time `x`. */
  function Active(intervals: seq<Interval>, x: real): int {
    if intervals == [] then 0
    else
      var i := intervals[|intervals| - 1];
      Active(intervals[..|intervals| - 1], x) + if i.start <= x < i.finish then 1 else 0
  }

  /** The types of all events up to time `x`, wherever they stand. */
  function SumUpTo(events: seq<Event>, x: real): int {
    if events == [] then 0
    else SumUpTo(events[..|events| - 1], x) + if events[|events| - 1].t <= x then events[|events| - 1].e else 0
  }

  lemma {:induction false} SumUpToInsert(s: seq<Event>, e: Event, x: real)
    ensures SumUpTo(Insert(s, e), x) == SumUpTo(s, x) + if e.t <= x then e.e else 0
  {
    var r := Insert(s, e);
    if s == [] || s[|s| - 1].t <= e.t {
      assert r[..|r| - 1] == s;
    } else {
      SumUpToInsert(s[..|s| - 1], e, x);
      assert r[..|r| - 1] == Insert(s[..|s| - 1], e);
    }
  }

  lemma {:induction false} SumUpToSorted(events: seq<Event>, x: real)
    ensures SumUpTo(SortedEvents(events), x) == SumUpTo(events, x)
  {
    if events != [] {
      SumUpToSorted(events[..|events| - 1], x);
      SumUpToInsert(SortedEvents(events[..|events| - 1]), events[|events| - 1], x);
    }
  }

  lemma {:induction false} SumUpToIsActive(intervals: seq<Interval>, x: real)
    requires Proper(intervals)
    ensures SumUpTo(EventsOf(intervals), x) == Active(intervals, x)
  {
    if intervals != [] {
      var n := |intervals| - 1;
      SumUpToIsActive(intervals[..n], x);
      var all := EventsOf(intervals);
      assert all[..|all| - 1][..|all| - 2] == EventsOf(intervals[..n]);
    }
  }

  lemma {:induction false} SumUpToIsCount(events: seq<Event>, k: nat, x: real)
    requires k <= |events|
    requires forall i :: 0 <= i < k ==> events[i].t <= x
    requires forall i :: k <= i < |events| ==> x < events[i].t
    ensures SumUpTo(events, x) == Count(events, k)
    decreases |events|
  {
    if events != [] {
      var n := |events| - 1;
      if k <= n {
        SumUpToIsCount(events[..n], k, x);
        CountOfPrefix(events, n, k);
      } else {
        SumUpToIsCount(events[..n], n, x);
        CountOfPrefix(events, n, n);
      }
    }
  }

  lemma {:induction false} CountOfPrefix(events: seq<Event>, n: nat, k: nat)
    requires k <= n <= |events|
    ensures Count(events[..n], k) == Count(events, k)
    decreases k
  {
    if k > 0 {
      CountOfPrefix(events, n, k - 1);
    }
  }

  /** Between two consecutive events the running count is the number of intervals under way,
      at every moment. */
  lemma CountIsActive(intervals: seq<Interval>, k: nat, x: real)
    requires Proper(intervals)
    requires var s := SortedEvents(EventsOf(intervals));
      k <= |s| && (k > 0 ==> s[k - 1].t <= x) && (k < |s| ==> x < s[k].t)
    ensures Count(SortedEvents(EventsOf(intervals)), k) == Active(intervals, x)
  {
    var events := EventsOf(intervals);
    SortIsStable(events, x);
    SumUpToSorted(events, x);
    SumUpToIsActive(intervals, x);
    SumUpToIsCount(SortedEvents(events), k, x);
  }

  // ------------------------------------------------------------------------ totals

  /** Time between event `k` and the one before it, or time 0. */
  function Gap(events: seq<Event>, k: nat): real
    requires k < |events|
  {
    events[k].t - if k == 0 then 0.0 else events[k - 1].t
  }

  /** Time up to event `n` during which the count is exactly `c`. */
  ghost function Exactly(events: seq<Event>, n: nat, c: int): real
    requires n <= |events|
  {
    if n == 0 then 0.0
    else Exactly(events, n - 1, c) + if Count(events, n - 1) == c then Gap(events, n - 1) else 0.0
  }

  /** Time up to event `n` during which the count is at least `c`. */
  ghost function AtLeast(events: seq<Event>, n: nat, c: int): real
    requires n <= |events|
  {
    if n == 0 then 0.0
    else AtLeast(events, n - 1, c) + if Count(events, n - 1) >= c then Gap(events, n - 1) else 0.0
  }

  /** The sweep: a total for every count that occurs. */
  method Sweep(events: seq<Event>) returns (total: map<int, real>)
    ensures forall c :: c in total <==> exists k :: 0 <= k < |events| && Count(events, k) == c
    ensures forall c :: c in total ==> total[c] == Exactly(events, |events|, c)
  {
    total := map[];
    var count, last := 0, 0.0;
    var k := 0;
    while k < |events|
      invariant k <= |events|
      invariant count == Count(events, k)
      invariant last == if k == 0 then 0.0 else events[k - 1].t
      invariant forall c :: c in total <==> exists j :: 0 <= j < k && Count(events, j) == c
      invariant forall c :: c in total ==> total[c] == Exactly(events, k, c)
    {
      var event := events[k];
      if count !in total {
        NotYet(events, k, count);
        total := total[count := 0.0];
      }
      total := total[count := total[count] + (event.t - last)];
      count := count + event.e;
      last := event.t;
      k := k + 1;
    }
  }

  lemma {:induction false} NotYet(events: seq<Event>, n: nat, c: int)
    requires n <= |events| && forall j :: 0 <= j < n ==> Count(events, j) != c
    ensures Exactly(events, n, c) == 0.0
  {
    if n > 0 {
      NotYet(events, n - 1, c);
    }
  }

  lemma {:induction false} AtLeastStep(events: seq<Event>, n: nat, c: int)
    requires n <= |events|
    ensures AtLeast(events, n, c) == Exactly(events, n, c) + AtLeast(events, n, c + 1)
  {
    if n > 0 {
      AtLeastStep(events, n - 1, c);
    }
  }

  lemma {:induction false} AtLeastSkips(events: seq<Event>, n: nat, lo: int, hi: int)
    requires n <= |events| && lo <= hi
    requires forall j :: 0 <= j < n ==> !(lo <= Count(events, j) < hi)
    ensures AtLeast(events, n, lo) == AtLeast(events, n, hi)
  {
    if n > 0 {
      AtLeastSkips(events, n - 1, lo, hi);
    }
  }

  lemma {:induction false} NoneAbove(events: seq<Event>, n: nat, c: int)
    requires n <= |events| && forall j :: 0 <= j < n ==> Count(events, j) < c
    ensures AtLeast(events, n, c) == 0.0
  {
    if n > 0 {
      NoneAbove(events, n - 1, c);
    }
  }

  ghost predicate Occurs(events: seq<Event>, c: int) {
    exists k :: 0 <= k < |events| && Count(events, k) == c
  }

  /** The result: counts from the highest down, each with the time during which at least so
      many agents were in use. */
  ghost predicate Reports(events: seq<Event>, result: seq<(real, int)>) {
    && (forall i :: 0 <= i < |result| ==> Occurs(events, result[i].1) && result[i].0 == AtLeast(events, |events|, result[i].1))
    && (forall i, j :: 0 <= i < j < |result| ==> result[i].1 > result[j].1)
  }

  method Highest(keys: set<int>) returns (c: int)
    requires keys != {}
    ensures c in keys && forall d :: d in keys ==> d <= c
  {
    c := Any(keys);
    var rest := keys;
    while rest != {}
      invariant c in keys && rest <= keys && forall d :: d in keys && d !in rest ==> d <= c
      decreases |rest|
    {
      var d := Any(rest);
      if d > c {
        c := d;
      }
      rest := rest - {d};
    }
  }

  method Any(keys: set<int>) returns (c: int)
    requires keys != {}
    ensures c in keys
  {
    HasMember(keys);
    c :| c in keys;
  }

  lemma HasMember(keys: set<int>)
    ensures keys == {} || exists c :: c in keys
  {
    if forall c :: c !in keys {
      assert keys == {};
    }
  }

  ghost predicate Listed(result: seq<(real, int)>, c: int) {
    exists i :: 0 <= i < |result| && result[i].1 == c
  }

  /** Adding the total of the next lower count. */
  lemma AddNext(events: seq<Event>, c: int, above: int)
    requires c < above && forall d :: Occurs(events, d) && d < above ==> d <= c
    ensures AtLeast(events, |events|, c) == AtLeast(events, |events|, above) + Exactly(events, |events|, c)
  {
    AtLeastStep(events, |events|, c);
    forall j | 0 <= j < |events|
      ensures !(c + 1 <= Count(events, j) < above)
    {
      assert Occurs(events, Count(events, j));
    }
    AtLeastSkips(events, |events|, c + 1, above);
  }

  lemma ListNext(events: seq<Event>, result: seq<(real, int)>, t: real, c: int, above: int)
    requires Reports(events, result) && c < above && Occurs(events, c) && t == AtLeast(events, |events|, c)
    requires forall i :: 0 <= i < |result| ==> result[i].1 >= above
    ensures var result' := result + [(t, c)];
      && Reports(events, result')
      && (forall i :: 0 <= i < |result'| ==> result'[i].1 >= c)
      && forall d :: Listed(result, d) || d == c ==> Listed(result', d)
  {
    var result' := result + [(t, c)];
    assert result'[|result|].1 == c;
    forall d | Listed(result, d)
      ensures Listed(result', d)
    {
      var i :| 0 <= i < |result| && result[i].1 == d;
      assert result'[i].1 == d;
    }
  }

  /** The last loop: the totals added up over decreasing counts. */
  method Report(total: map<int, real>, ghost events: seq<Event>) returns (result: seq<(real, int)>)
    requires forall c :: c in total <==> Occurs(events, c)
    requires forall c :: c in total ==> total[c] == Exactly(events, |events|, c)
    ensures Reports(events, result)
    ensures forall c :: Occurs(events, c) ==> Listed(result, c)
  {
    result := [];
    var t := 0.0;
    var keys := total.Keys;
    ghost var above := Above(events);
    assert forall c :: c in total ==> c < above;
    while keys != {}
      invariant forall c :: c in keys <==> c in total && c < above
      invariant t == AtLeast(events, |events|, above)
      invariant Reports(events, result)
      invariant forall i :: 0 <= i < |result| ==> result[i].1 >= above
      invariant forall c :: c in total && c >= above ==> Listed(result, c)
      decreases |keys|
    {
      var c := Highest(keys);
      AddNext(events, c, above);
      t := t + total[c];
      ListNext(events, result, t, c, above);
      result := result + [(t, c)];
      above := c;
      keys := keys - {c};
    }
  }

  /** A count that is never reached. */
  ghost function Above(events: seq<Event>): (c: int)
    ensures forall k :: 0 <= k < |events| ==> Count(events, k) < c
    ensures AtLeast(events, |events|, c) == 0.0
  {
    var c := Bound(events, |events|);
    NoneAbove(events, |events|, c);
    c
  }

  ghost function Bound(events: seq<Event>, n: nat): (c: int)
    requires n <= |events|
    ensures forall k :: 0 <= k < n ==> Count(events, k) < c
  {
    if n == 0 then 0
    else
      var c := Bound(events, n - 1);
      if Count(events, n - 1) < c then c else Count(events, n - 1) + 1
  }

  // -------------------------------------------------------- the time intervals are active

  /** Where the gap in front of event `k` starts. */
  function GapStart(events: seq<Event>, k: nat): real
    requires k < |events|
  {
    if k == 0 then 0.0 else events[k - 1].t
  }

  /** Time up to event `n` during which at least `c` intervals are under way. */
  function ActiveTime(intervals: seq<Interval>, events: seq<Event>, n: nat, c: int): real
    requires n <= |events|
  {
    if n == 0 then 0.0
    else
      ActiveTime(intervals, events, n - 1, c) +
      if Active(intervals, GapStart(events, n - 1)) >= c then Gap(events, n - 1) else 0.0
  }

  /** As many intervals are under way anywhere in a gap as at its start. */
  lemma ActiveInGap(intervals: seq<Interval>, k: nat, x: real)
    requires Proper(intervals)
    requires var s := SortedEvents(EventsOf(intervals)); k < |s| && GapStart(s, k) <= x < s[k].t
    ensures Active(intervals, x) == Active(intervals, GapStart(SortedEvents(EventsOf(intervals)), k))
  {
    CountIsActive(intervals, k, x);
    CountIsActive(intervals, k, GapStart(SortedEvents(EventsOf(intervals)), k));
  }

  ghost predicate FromZero(events: seq<Event>) {
    forall i :: 0 <= i < |events| ==> events[i].t >= 0.0
  }

  lemma {:induction false} EventsFromZero(intervals: seq<Interval>)
    requires Proper(intervals)
    ensures FromZero(EventsOf(intervals))
  {
    if intervals != [] {
      EventsFromZero(intervals[..|intervals| - 1]);
    }
  }

  lemma {:induction false} SortedFromZero(events: seq<Event>)
    requires FromZero(events)
    ensures FromZero(SortedEvents(events))
  {
    if events != [] {
      var n := |events| - 1;
      SortedFromZero(events[..n]);
      SortIsStable(events[..n], 0.0);
      InsertInOrder(SortedEvents(events[..n]), events[n]);
    }
  }

  lemma GapIsNotNegative(intervals: seq<Interval>, k: nat)
    requires Proper(intervals) && k < |SortedEvents(EventsOf(intervals))|
    ensures Gap(SortedEvents(EventsOf(intervals)), k) >= 0.0
  {
    EventsFromZero(intervals);
    SortedFromZero(EventsOf(intervals));
    SortIsStable(EventsOf(intervals), 0.0);
  }

  /** The time the sweep has at least count `c` is the time at least `c` intervals are under
      way. */
  lemma {:induction false} AtLeastIsActive(intervals: seq<Interval>, s: seq<Event>, n: nat, c: int)
    requires Proper(intervals) && s == SortedEvents(EventsOf(intervals)) && n <= |s|
    ensures AtLeast(s, n, c) == ActiveTime(intervals, s, n, c)
  {
    if n > 0 {
      AtLeastIsActive(intervals, s, n - 1, c);
      GapIsNotNegative(intervals, n - 1);
      if Gap(s, n - 1) > 0.0 {
        CountIsActive(intervals, n - 1, GapStart(s, n - 1));
      }
    }
  }

  /** Every entry of the result is a count and the time during which at least so many
      intervals are under way. */
  ghost predicate ShowsActive(intervals: seq<Interval>, result: seq<(real, int)>) {
    var s := SortedEvents(EventsOf(intervals));
    forall i :: 0 <= i < |result| ==> result[i].0 == ActiveTime(intervals, s, |s|, result[i].1)
  }

  lemma ReportsShowActive(intervals: seq<Interval>, result: seq<(real, int)>)
    requires Proper(intervals) && Reports(SortedEvents(EventsOf(intervals)), result)
    ensures ShowsActive(intervals, result)
  {
    var s := SortedEvents(EventsOf(intervals));
    forall i | 0 <= i < |result|
      ensures result[i].0 == ActiveTime(intervals, s, |s|, result[i].1)
    {
      AtLeastIsActive(intervals, s, |s|, result[i].1);
    }
  }

  // ------------------------------------------------------------------ conservation

  /** The time accounted for is all the time up to the last event. */
  lemma {:induction false} WholeTime(events: seq<Event>, n: nat)
    requires 0 < n <= |events| && forall k :: 0 <= k < n ==> Count(events, k) >= 0
    ensures AtLeast(events, n, 0) == events[n - 1].t
  {
    if n == 1 {
      assert AtLeast(events, 0, 0) == 0.0;
    } else {
      WholeTime(events, n - 1);
    }
  }

  /** Time weighted with the count during it. */
  ghost function Weighted(events: seq<Event>, n: nat): real
    requires n <= |events|
  {
    if n == 0 then 0.0 else Weighted(events, n - 1) + Count(events, n - 1) as real * Gap(events, n - 1)
  }

  /** Event times added up with their types as signs. */
  ghost function Signed(events: seq<Event>): real {
    if events == [] then 0.0
    else Signed(events[..|events| - 1]) + events[|events| - 1].e as real * events[|events| - 1].t
  }

  lemma Distribute(a: real, b: real, x: real, y: real)
    ensures a * y + a * (x - y) == a * x && (a + b) * x == a * x + b * x
  {
  }

  lemma {:induction false} WeightedBySigns(events: seq<Event>, n: nat)
    requires 0 < n <= |events|
    ensures Weighted(events, n) == Count(events, n) as real * events[n - 1].t - Signed(events[..n])
  {
    var m := n - 1;
    assert events[..n][..m] == events[..m];
    var c, e, t := Count(events, m) as real, events[m].e as real, events[m].t;
    if m == 0 {
      assert Weighted(events, 0) == 0.0 && Signed(events[..0]) == 0.0;
      Distribute(c, e, t, 0.0);
    } else {
      WeightedBySigns(events, m);
      Distribute(c, e, t, events[m - 1].t);
    }
  }

  lemma {:induction false} SignedInsert(s: seq<Event>, e: Event)
    ensures Signed(Insert(s, e)) == Signed(s) + e.e as real * e.t
  {
    var r := Insert(s, e);
    if s == [] || s[|s| - 1].t <= e.t {
      assert r[..|r| - 1] == s;
    } else {
      SignedInsert(s[..|s| - 1], e);
      assert r[..|r| - 1] == Insert(s[..|s| - 1], e);
    }
  }

  lemma {:induction false} SignedOfIntervals(intervals: seq<Interval>)
    ensures Signed(SortedEvents(EventsOf(intervals))) == -Length(intervals)
  {
    if intervals == [] {
      assert SortedEvents(EventsOf(intervals)) == [];
    } else {
      var n := |intervals| - 1;
      var before, start, finish := EventsOf(intervals[..n]), Event(intervals[n].start, START), Event(intervals[n].finish, FINISH);
      SignedOfIntervals(intervals[..n]);
      SortTwoMore(before, start, finish);
      SignedInsert(SortedEvents(before), start);
      SignedInsert(Insert(SortedEvents(before), start), finish);
    }
  }

  /** Weighted with the count, the time adds up to the lengths of the intervals. */
  lemma WeightedIsLength(intervals: seq<Interval>)
    requires Proper(intervals)
    ensures var s := SortedEvents(EventsOf(intervals)); Weighted(s, |s|) == Length(intervals)
  {
    var s := SortedEvents(EventsOf(intervals));
    CountNeverNegative(intervals);
    SignedOfIntervals(intervals);
    if s == [] {
      assert Signed(s) == 0.0;
    } else {
      WeightedBySigns(s, |s|);
      assert s[..|s|] == s;
      assert Count(s, |s|) as real * s[|s| - 1].t == 0.0;
    }
  }

  /** Counts times their totals, added up. */
  ghost function Area(events: seq<Event>, n: nat, counts: seq<int>): real
    requires n <= |events|
  {
    if counts == [] then 0.0
    else
      var c := counts[|counts| - 1];
      Area(events, n, counts[..|counts| - 1]) + c as real * Exactly(events, n, c)
  }

  ghost predicate Different(counts: seq<int>) {
    forall i, j :: 0 <= i < j < |counts| ==> counts[i] != counts[j]
  }

  lemma DistributeSum(c: real, x: real, y: real)
    ensures c * (x + y) == c * x + c * y
  {
  }

  /** One more event adds its gap to the total of the count before it. */
  lemma ExactlyStep(events: seq<Event>, n: nat, c: int)
    requires n < |events|
    ensures c as real * Exactly(events, n + 1, c) ==
      c as real * Exactly(events, n, c) + if Count(events, n) == c then c as real * Gap(events, n) else 0.0
  {
    DistributeSum(c as real, Exactly(events, n, c), Gap(events, n));
  }

  lemma {:induction false} AreaStep(events: seq<Event>, n: nat, counts: seq<int>)
    requires n < |events| && Different(counts)
    ensures Area(events, n + 1, counts) ==
      Area(events, n, counts) + if Count(events, n) in counts then Count(events, n) as real * Gap(events, n) else 0.0
  {
    if counts != [] {
      var m := |counts| - 1;
      AreaStep(events, n, counts[..m]);
      ExactlyStep(events, n, counts[m]);
      LastIsNew(counts, Count(events, n));
    }
  }

  lemma LastIsNew(counts: seq<int>, c: int)
    requires counts != [] && Different(counts)
    ensures var m := |counts| - 1;
      counts[m] !in counts[..m] && (c in counts <==> c in counts[..m] || c == counts[m])
  {
    assert counts == counts[..|counts| - 1] + [counts[|counts| - 1]];
  }

  lemma {:induction false} AreaIsWeighted(events: seq<Event>, n: nat, counts: seq<int>)
    requires n <= |events| && Different(counts) && forall k :: 0 <= k < n ==> Count(events, k) in counts
    ensures Area(events, n, counts) == Weighted(events, n)
  {
    if n == 0 {
      NoArea(events, counts);
    } else {
      AreaIsWeighted(events, n - 1, counts);
      AreaStep(events, n - 1, counts);
    }
  }

  lemma {:induction false} NoArea(events: seq<Event>, counts: seq<int>)
    ensures Area(events, 0, counts) == 0.0
  {
    if counts != [] {
      NoArea(events, counts[..|counts| - 1]);
    }
  }

  function Counts(result: seq<(real, int)>): seq<int> {
    seq(|result|, i requires 0 <= i < |result| => result[i].1)
  }

  // ------------------------------------------------------------------ the report

  /** `GetAgentUtilization`.  With no interval emitted there is no list of events to sort,
      which is an error in Tcl.  Otherwise the report lists, from the highest count down to
      zero, for how long at least so many intervals were under way; all the time up to the
      last event is accounted for, and the count-weighted totals are the lengths of the
      emitted intervals. */
  method GetAgentUtilization(agents: seq<seq<Job>>) returns (ok: bool, result: seq<(real, int)>)
    requires forall a, j :: 0 <= a < |agents| && 0 <= j < |agents[a]| ==> agents[a][j].start >= 0.0
    requires Proper(Emitted(agents))
    ensures ok <==> Emitted(agents) != []
    ensures ok ==>
      var events := SortedEvents(EventsOf(Emitted(agents)));
      && Reports(events, result) && ShowsActive(Emitted(agents), result)
      && (forall c :: Occurs(events, c) ==> Listed(result, c))
      && result != [] && result[|result| - 1] == (events[|events| - 1].t, 0)
      && Area(events, |events|, Counts(result)) == Length(Emitted(agents))
  {
    var events := Aggregate(agents);
    if events == [] {
      EventCount(Emitted(agents));
      return false, [];
    }
    EventCount(Emitted(agents));
    CountNeverNegative(Emitted(agents));
    WeightedIsLength(Emitted(agents));
    events := SortedEvents(events);
    var total := Sweep(events);
    assert forall c :: c in total <==> Occurs(events, c);
    result := Report(total, events);
    ReportsShowActive(Emitted(agents), result);
    Conclude(events, result);
    ok := true;
  }

  lemma {:induction false} EventCount(intervals: seq<Interval>)
    ensures |EventsOf(intervals)| == 2 * |intervals|
  {
    if intervals != [] {
      EventCount(intervals[..|intervals| - 1]);
    }
  }

  /** Jobs run one after the other on each agent are all it takes. */
  lemma {:induction false} EmittedAreProper(agents: seq<seq<Job>>)
    requires forall a :: 0 <= a < |agents| ==> Sequential(agents[a])
    ensures Proper(Emitted(agents))
  {
    if agents != [] {
      EmittedAreProper(agents[..|agents| - 1]);
      MergedAreProper(agents[|agents| - 1]);
    }
  }

  lemma LastIsZero(events: seq<Event>, result: seq<(real, int)>)
    requires events != [] && Balanced(events) && Reports(events, result)
    requires forall c :: Occurs(events, c) ==> Listed(result, c)
    ensures result != [] && result[|result| - 1] == (events[|events| - 1].t, 0)
  {
    assert Count(events, 0) == 0;
    assert Occurs(events, 0);
    var i :| 0 <= i < |result| && result[i].1 == 0;
    assert Occurs(events, result[|result| - 1].1);
    WholeTime(events, |events|);
  }

  lemma Conclude(events: seq<Event>, result: seq<(real, int)>)
    requires events != [] && Balanced(events) && Reports(events, result)
    requires forall c :: Occurs(events, c) ==> Listed(result, c)
    ensures result != [] && result[|result| - 1] == (events[|events| - 1].t, 0)
    ensures Area(events, |events|, Counts(result)) == Weighted(events, |events|)
  {
    LastIsZero(events, result);
    forall k | 0 <= k < |events|
      ensures Count(events, k) in Counts(result)
    {
      assert Occurs(events, Count(events, k));
      var j :| 0 <= j < |result| && result[j].1 == Count(events, k);
      assert Counts(result)[j] == Count(events, k);
    }
    AreaIsWeighted(events, |events|, Counts(result));
  }
}
