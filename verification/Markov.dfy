/** The character-level Markov generator: a sorted suffix array, a lower-bound binary
    search, a reservoir choice among the matches, and an output loop that keeps feeding its
    own output back into the search. */
module Markov {

  // -------------------------------------------------------------------- C strings

  /** First character of a string, its terminator if it is empty. */
  function Head(s: string): char {
    if s == [] then '\0' else s[0]
  }

  ghost predicate NulFree(s: string) {
    forall i :: 0 <= i < |s| ==> s[i] != '\0'
  }

  /** `strcmp`, reduced to its sign. */
  function Strcmp(a: string, b: string): (r: int)
    ensures -1 <= r <= 1
    decreases |a| + |b|
  {
    if Head(a) < Head(b) then -1
    else if Head(b) < Head(a) then 1
    else if a == [] || b == [] then 0
    else Strcmp(a[1..], b[1..])
  }

  /** `strncmp`, reduced to its sign. */
  function Strncmp(a: string, b: string, n: nat): (r: int)
    ensures -1 <= r <= 1
  {
    if n == 0 then 0
    else if Head(a) < Head(b) then -1
    else if Head(b) < Head(a) then 1
    else if a == [] || b == [] then 0
    else Strncmp(a[1..], b[1..], n - 1)
  }

  /** `strcmp` is total and transitive on strings without NULs. */
  lemma {:induction false} StrcmpTotal(a: string, b: string)
    ensures Strcmp(a, b) == -Strcmp(b, a)
    decreases |a| + |b|
  {
    if Head(a) == Head(b) && a != [] && b != [] {
      StrcmpTotal(a[1..], b[1..]);
    }
  }

  lemma {:induction false} StrcmpTransitive(a: string, b: string, c: string)
    requires NulFree(a) && NulFree(b) && NulFree(c)
    requires Strcmp(a, b) <= 0 && Strcmp(b, c) <= 0
    ensures Strcmp(a, c) <= 0
    decreases |a|
  {
    if Head(a) == Head(b) == Head(c) && a != [] && b != [] && c != [] {
      StrcmpTransitive(a[1..], b[1..], c[1..]);
    }
  }

  /** The strings agree up to `i`, and there `a` has the lower character or is over. */
  ghost predicate Below(a: string, b: string, i: nat) {
    i <= |a| && i < |b| && a[..i] == b[..i] && (i == |a| || a[i] < b[i])
  }

  lemma BelowNext(a: string, b: string, i: nat)
    requires a != [] && b != [] && a[0] == b[0]
    ensures Below(a, b, i + 1) <==> Below(a[1..], b[1..], i)
  {
    if i < |a| && i < |b| {
      assert a[..i + 1] == [a[0]] + a[1..][..i];
      assert b[..i + 1] == [b[0]] + b[1..][..i];
      assert a[1..][..i] == a[..i + 1][1..] && b[1..][..i] == b[..i + 1][1..];
    }
  }

  /** Two strings compare equal exactly if they are the same, and otherwise by the first
      place where they differ; a string comes before what it is extended to. */
  lemma {:induction false} StrcmpExactly(a: string, b: string)
    requires NulFree(a) && NulFree(b)
    ensures Strcmp(a, b) == 0 <==> a == b
    ensures Strcmp(a, b) < 0 <==> exists i: nat :: Below(a, b, i)
    decreases |a|
  {
    if a == [] || b == [] || a[0] != b[0] {
      if Strcmp(a, b) < 0 {
        assert Below(a, b, 0);
      }
    } else {
      StrcmpExactly(a[1..], b[1..]);
      assert a == [a[0]] + a[1..] && b == [b[0]] + b[1..];
      if i: nat :| Below(a, b, i) {
        BelowNext(a, b, i - 1);
      }
      if i: nat :| Below(a[1..], b[1..], i) {
        BelowNext(a, b, i);
      }
    }
  }

  /** Comparing with a fixed prefix is monotone in the order of the strings; this is why
      sorting by the whole suffix makes the search by prefix work. */
  lemma {:induction false} PrefixMonotone(a: string, b: string, prefix: string, n: nat)
    requires NulFree(a) && NulFree(b) && NulFree(prefix) && n == |prefix|
    requires Strcmp(a, b) <= 0
    ensures Strncmp(a, prefix, n) <= Strncmp(b, prefix, n)
    decreases n
  {
    if n > 0 && Head(a) == Head(b) == Head(prefix) && a != [] && b != [] {
      PrefixMonotone(a[1..], b[1..], prefix[1..], n - 1);
    }
  }

  /** A string compares equal to a prefix exactly when it starts with it. */
  lemma {:induction false} MatchIsPrefix(a: string, prefix: string, n: nat)
    requires NulFree(a) && NulFree(prefix) && n == |prefix|
    ensures Strncmp(a, prefix, n) == 0 <==> prefix <= a
    decreases n
  {
    if n > 0 && a != [] {
      MatchIsPrefix(a[1..], prefix[1..], n - 1);
      assert prefix <= a <==> prefix[0] == a[0] && prefix[1..] <= a[1..] by {
        if prefix[0] == a[0] && prefix[1..] <= a[1..] {
          assert a[..n] == [a[0]] + a[1..][..n - 1];
          assert prefix == [prefix[0]] + prefix[1..];
        }
        if prefix <= a {
          assert a[1..][..n - 1] == a[..n][1..] == prefix[1..];
        }
      }
    }
  }

  /** A string that starts with `b` and does not come after it is `b`. */
  lemma {:induction false} LeastExtension(a: string, b: string)
    requires NulFree(a) && b <= a && Strcmp(a, b) <= 0
    ensures a == b
    decreases |a|
  {
    if b != [] {
      assert b[1..] <= a[1..] by {
        assert a[1..][..|b| - 1] == a[..|b|][1..];
      }
      LeastExtension(a[1..], b[1..]);
      assert a == [a[0]] + a[1..] == b;
    }
  }

  // ------------------------------------------------------------------ suffix array

  /** Every position of the text once, in the order of the suffixes that start there. */
  ghost predicate SuffixArray(text: string, sa: seq<nat>) {
    && |sa| == |text|
    && (forall i :: 0 <= i < |sa| ==> sa[i] < |text|)
    && (forall i, j :: 0 <= i < j < |sa| ==> sa[i] != sa[j])
    && (forall p :: 0 <= p < |text| ==> p in sa)
    && (forall i, j :: 0 <= i <= j < |sa| ==> Strcmp(text[sa[i]..], text[sa[j]..]) <= 0)
  }

  /** The contract of `qsort` with `strcmpIndirect`, met here by insertion. */
  method SortSuffixes(text: string) returns (sa: seq<nat>)
    requires NulFree(text)
    ensures SuffixArray(text, sa)
  {
    sa := [];
    var p := 0;
    while p < |text|
      invariant p <= |text|
      invariant SortedSuffixes(text, sa, p)
    {
      var k := PlaceFor(text, sa, p);
      InsertSuffix(text, sa, p, k);
      sa := sa[..k] + [p] + sa[k..];
      p := p + 1;
    }
  }

  /** In front of the first suffix that is greater than suffix `p`. */
  method PlaceFor(text: string, sa: seq<nat>, p: nat) returns (k: nat)
    requires p <= |text| && forall i :: 0 <= i < |sa| ==> sa[i] <= |text|
    ensures k <= |sa| && forall i :: 0 <= i < k ==> Strcmp(text[sa[i]..], text[p..]) <= 0
    ensures k < |sa| ==> Strcmp(text[sa[k]..], text[p..]) > 0
  {
    k := 0;
    while k < |sa| && Strcmp(text[sa[k]..], text[p..]) <= 0
      invariant k <= |sa|
      invariant forall i :: 0 <= i < k ==> Strcmp(text[sa[i]..], text[p..]) <= 0
    {
      k := k + 1;
    }
  }

  /** The positions below `n` once each, in suffix order. */
  ghost predicate SortedSuffixes(text: string, sa: seq<nat>, n: nat)
    requires n <= |text|
  {
    && |sa| == n
    && (forall i :: 0 <= i < n ==> sa[i] < n)
    && (forall i, j :: 0 <= i < j < n ==> sa[i] != sa[j])
    && (forall p :: 0 <= p < n ==> p in sa)
    && (forall i, j :: 0 <= i <= j < n ==> Strcmp(text[sa[i]..], text[sa[j]..]) <= 0)
  }

  lemma InsertedInOrder(text: string, sa: seq<nat>, p: nat, k: nat, i: nat, j: nat)
    requires NulFree(text) && p < |text| && SortedSuffixes(text, sa, p) && k <= p && i <= j <= p
    requires forall i :: 0 <= i < k ==> Strcmp(text[sa[i]..], text[p..]) <= 0
    requires k < p ==> Strcmp(text[sa[k]..], text[p..]) > 0
    ensures var next := sa[..k] + [p] + sa[k..];
            Strcmp(text[next[i]..], text[next[j]..]) <= 0
  {
    if i == k {
      StrcmpTotal(text[p..], text[p..]);
      if j > k {
        StrcmpTotal(text[sa[k]..], text[p..]);
        StrcmpTransitive(text[p..], text[sa[k]..], text[sa[j - 1]..]);
      }
    }
  }

  lemma InsertedMembers(sa: seq<nat>, p: nat, k: nat)
    requires k <= |sa| && forall q :: 0 <= q < p ==> q in sa
    ensures forall q :: 0 <= q < p + 1 ==> q in sa[..k] + [p] + sa[k..]
    ensures (forall i :: 0 <= i < |sa| ==> sa[i] < p) && (forall i, j :: 0 <= i < j < |sa| ==> sa[i] != sa[j]) ==>
      var next := sa[..k] + [p] + sa[k..];
      (forall i :: 0 <= i < |next| ==> next[i] < p + 1) && (forall i, j :: 0 <= i < j < |next| ==> next[i] != next[j])
  {
    forall q | 0 <= q < p
      ensures q in sa[..k] + [p] + sa[k..]
    {
      assert q in sa;
      assert sa == sa[..k] + sa[k..];
    }
  }

  lemma InsertSuffix(text: string, sa: seq<nat>, p: nat, k: nat)
    requires NulFree(text) && p < |text| && SortedSuffixes(text, sa, p) && k <= p
    requires forall i :: 0 <= i < k ==> Strcmp(text[sa[i]..], text[p..]) <= 0
    requires k < p ==> Strcmp(text[sa[k]..], text[p..]) > 0
    ensures SortedSuffixes(text, sa[..k] + [p] + sa[k..], p + 1)
  {
    var next := sa[..k] + [p] + sa[k..];
    InsertedMembers(sa, p, k);
    forall i, j | 0 <= i <= j < p + 1
      ensures Strcmp(text[next[i]..], text[next[j]..]) <= 0
    {
      InsertedInOrder(text, sa, p, k, i, j);
    }
  }

  // ---------------------------------------------------------------- searching

  /** How suffix number `j` compares with the prefix. */
  function Cmp(text: string, sa: seq<nat>, prefix: string, j: nat): (r: int)
    requires j < |sa| && sa[j] <= |text|
  {
    Strncmp(text[sa[j]..], prefix, |prefix|)
  }

  ghost predicate Starts(text: string, p: nat, prefix: string) {
    p + |prefix| <= |text| && text[p..p + |prefix|] == prefix
  }

  lemma CmpMonotone(text: string, sa: seq<nat>, prefix: string, i: nat, j: nat)
    requires NulFree(text) && NulFree(prefix) && SuffixArray(text, sa) && i <= j < |sa|
    ensures Cmp(text, sa, prefix, i) <= Cmp(text, sa, prefix, j)
  {
    PrefixMonotone(text[sa[i]..], text[sa[j]..], prefix, |prefix|);
  }

  lemma CmpMatches(text: string, sa: seq<nat>, prefix: string, j: nat)
    requires NulFree(text) && NulFree(prefix) && SuffixArray(text, sa) && j < |sa|
    ensures Cmp(text, sa, prefix, j) == 0 <==> Starts(text, sa[j], prefix)
  {
    MatchIsPrefix(text[sa[j]..], prefix, |prefix|);
    if Starts(text, sa[j], prefix) {
      assert text[sa[j]..][..|prefix|] == prefix;
    }
    if prefix <= text[sa[j]..] {
      assert text[sa[j]..sa[j] + |prefix|] == text[sa[j]..][..|prefix|];
    }
  }

  /** The binary search: the least index whose suffix is not below the prefix. */
  method LowerBound(text: string, sa: seq<nat>, prefix: string) returns (u: nat)
    requires NulFree(text) && NulFree(prefix) && SuffixArray(text, sa)
    ensures u <= |sa|
    ensures forall j :: 0 <= j < u ==> Cmp(text, sa, prefix, j) < 0
    ensures forall j :: u <= j < |sa| ==> Cmp(text, sa, prefix, j) >= 0
  {
    var l := -1;
    var hi := |sa|;
    while l + 1 != hi
      invariant -1 <= l < hi <= |sa|
      invariant forall j :: 0 <= j <= l ==> Cmp(text, sa, prefix, j) < 0
      invariant forall j :: hi <= j < |sa| ==> Cmp(text, sa, prefix, j) >= 0
      decreases hi - l
    {
      var m := (l + hi) / 2;
      if Cmp(text, sa, prefix, m) < 0 {
        forall j | 0 <= j <= m
          ensures Cmp(text, sa, prefix, j) < 0
        {
          CmpMonotone(text, sa, prefix, j, m);
        }
        l := m;
      } else {
        forall j | m <= j < |sa|
          ensures Cmp(text, sa, prefix, j) >= 0
        {
          CmpMonotone(text, sa, prefix, m, j);
        }
        hi := m;
      }
    }
    u := hi;
  }

  // -------------------------------------------------------------- reservoir choice

  /** The index picked by a run of draws: the last one that came out as zero. */
  function Pick(draws: seq<nat>): (c: nat)
    ensures c < |draws| || c == 0
  {
    if draws == [] then 0
    else if draws[|draws| - 1] == 0 then |draws| - 1
    else Pick(draws[..|draws| - 1])
  }

  /** The draw made for match number `i`. */
  function Draw(rand: nat -> nat, call: nat, i: nat): nat {
    rand(call + i) % (i + 1)
  }

  /** The draws made for a run of `n` matches: the i-th is below i + 1. */
  function DrawsFrom(rand: nat -> nat, call: nat, n: nat): (draws: seq<nat>)
    ensures Draws(draws, n)
  {
    seq(n, i requires 0 <= i < n => Draw(rand, call, i))
  }

  /** Match number `c` is the last of `n` whose draw came out as zero. */
  ghost predicate LastZero(rand: nat -> nat, call: nat, n: nat, c: nat) {
    c < n && Draw(rand, call, c) == 0 && forall i :: c < i < n ==> Draw(rand, call, i) != 0
  }

  lemma {:induction false} PickIsLastZero(draws: seq<nat>)
    requires draws != [] && draws[0] == 0
    ensures Pick(draws) < |draws| && draws[Pick(draws)] == 0
    ensures forall i :: Pick(draws) < i < |draws| ==> draws[i] != 0
  {
    var n := |draws| - 1;
    if draws[n] != 0 {
      PickIsLastZero(draws[..n]);
    }
  }

  lemma PickedIsLastZero(rand: nat -> nat, call: nat, n: nat)
    requires n > 0
    ensures LastZero(rand, call, n, Pick(DrawsFrom(rand, call, n)))
  {
    var draws := DrawsFrom(rand, call, n);
    PickIsLastZero(draws);
    forall i | Pick(draws) < i < n
      ensures Draw(rand, call, i) != 0
    {
      assert draws[i] == Draw(rand, call, i);
    }
  }

  /** The matching suffixes are exactly those numbered `u` to `u + run - 1`. */
  ghost predicate Run(text: string, sa: seq<nat>, prefix: string, u: nat, run: nat)
    requires SuffixArray(text, sa)
  {
    u + run <= |sa| && forall j :: 0 <= j < |sa| ==> (u <= j < u + run <==> Starts(text, sa[j], prefix))
  }

  lemma PickNext(rand: nat -> nat, call: nat, n: nat, next: nat, draw: nat)
    requires next == n + 1 && draw == Draw(rand, call, n)
    ensures Pick(DrawsFrom(rand, call, next)) == if draw == 0 then n else Pick(DrawsFrom(rand, call, n))
  {
    assert DrawsFrom(rand, call, next)[..n] == DrawsFrom(rand, call, n);
  }

  lemma RunByCmp(text: string, sa: seq<nat>, prefix: string, u: nat, run: nat)
    requires NulFree(text) && NulFree(prefix) && SuffixArray(text, sa) && u + run <= |sa|
    requires forall j :: 0 <= j < u ==> Cmp(text, sa, prefix, j) < 0
    requires forall j :: u <= j < |sa| ==> Cmp(text, sa, prefix, j) >= 0
    requires forall j :: u <= j < u + run ==> Cmp(text, sa, prefix, j) == 0
    requires u + run < |sa| ==> Cmp(text, sa, prefix, u + run) != 0
    ensures Run(text, sa, prefix, u, run)
  {
    forall j | 0 <= j < |sa|
      ensures u <= j < u + run <==> Starts(text, sa[j], prefix)
    {
      CmpMatches(text, sa, prefix, j);
      if u + run <= j {
        CmpMonotone(text, sa, prefix, u + run, j);
      }
    }
  }

  /** The scan over the matches.  It stops in front of the cell behind the last suffix,
      where the program expects a null pointer. */
  method Choose(text: string, sa: seq<nat>, prefix: string, u: nat, rand: nat -> nat, call: nat)
    returns (choice: nat, run: nat)
    requires NulFree(text) && NulFree(prefix) && SuffixArray(text, sa) && u <= |sa|
    requires forall j :: 0 <= j < u ==> Cmp(text, sa, prefix, j) < 0
    requires forall j :: u <= j < |sa| ==> Cmp(text, sa, prefix, j) >= 0
    ensures Run(text, sa, prefix, u, run)
    ensures choice == Pick(DrawsFrom(rand, call, run))
    ensures run > 0 ==> LastZero(rand, call, run, choice)
  {
    choice := 0;
    run := 0;
    while u + run < |sa| && Cmp(text, sa, prefix, u + run) == 0
      invariant u + run <= |sa|
      invariant forall j :: u <= j < u + run ==> Cmp(text, sa, prefix, j) == 0
      invariant choice == Pick(DrawsFrom(rand, call, run))
    {
      var draw := rand(call + run) % (run + 1);
      PickNext(rand, call, run, run + 1, draw);
      if draw == 0 {
        choice := run;
      }
      run := run + 1;
    }
    RunByCmp(text, sa, prefix, u, run);
    if run > 0 {
      PickedIsLastZero(rand, call, run);
    }
  }

  /** Position `at` is that of the match which the draws from `call` on choose, of `run`
      matches in all. */
  ghost predicate Chosen(text: string, sa: seq<nat>, prefix: string, rand: nat -> nat, call: nat, run: nat, at: nat)
    requires SuffixArray(text, sa)
  {
    exists u: nat, c: nat ::
      Run(text, sa, prefix, u, run) && LastZero(rand, call, run, c) && u + c < |sa| && at == sa[u + c]
  }

  /** There is one run of matches, one last zero, and so one choice. */
  lemma ChoiceIsUnique(text: string, sa: seq<nat>, prefix: string, rand: nat -> nat, call: nat,
                       run: nat, at: nat, run': nat, at': nat)
    requires SuffixArray(text, sa)
    requires Chosen(text, sa, prefix, rand, call, run, at) && Chosen(text, sa, prefix, rand, call, run', at')
    ensures run == run' && at == at'
  {
    var u: nat, c: nat :|
      Run(text, sa, prefix, u, run) && LastZero(rand, call, run, c) && u + c < |sa| && at == sa[u + c];
    var u': nat, c': nat :|
      Run(text, sa, prefix, u', run') && LastZero(rand, call, run', c') && u' + c' < |sa| && at' == sa[u' + c'];
    RunIsUnique(text, sa, prefix, u, run, u', run');
    assert c == c';
  }

  lemma RunIsUnique(text: string, sa: seq<nat>, prefix: string, u: nat, run: nat, u': nat, run': nat)
    requires SuffixArray(text, sa) && Run(text, sa, prefix, u, run) && Run(text, sa, prefix, u', run')
    requires run > 0 && run' > 0
    ensures u == u' && run == run'
  {
    assert Starts(text, sa[u], prefix) && Starts(text, sa[u'], prefix);
    assert Starts(text, sa[u + run - 1], prefix) && Starts(text, sa[u' + run' - 1], prefix);
  }

  /** The cell behind the last suffix is inspected exactly when the greatest suffix starts
      with the prefix: the program stores no null pointer there. */
  lemma SentinelReadExact(text: string, sa: seq<nat>, prefix: string, u: nat, run: nat)
    requires SuffixArray(text, sa) && text != [] && Run(text, sa, prefix, u, run) && run > 0
    ensures u + run == |sa| <==> Starts(text, sa[|sa| - 1], prefix)
  {
  }

  // ------------------------------------------------------------------ generation

  ghost predicate Occurs(s: string, text: string) {
    exists p: nat :: Starts(text, p, s)
  }

  /** Every window of K + 1 characters of the output occurs in the text. */
  ghost predicate Windows(output: string, text: string, K: nat) {
    forall i :: 0 <= i < |output| - K ==> Occurs(Window(output, i, K), text)
  }

  function Window(output: string, i: nat, K: nat): string
    requires i + K < |output|
  {
    output[i..i + K + 1]
  }

  /** The last K characters of the output. */
  function Last(output: string, K: nat): string
    requires K <= |output|
  {
    output[|output| - K..]
  }

  /** The text goes on nowhere behind `prefix`: it only occurs at the very end. */
  ghost predicate DeadEndAt(text: string, prefix: string) {
    forall p: nat :: Starts(text, p, prefix) <==> p + |prefix| == |text|
  }

  /** A text that contains the prefix has it at the head of its run. */
  lemma RunIsNotEmpty(text: string, sa: seq<nat>, prefix: string, u: nat, run: nat)
    requires SuffixArray(text, sa) && Run(text, sa, prefix, u, run)
    requires Occurs(prefix, text) && text != []
    ensures run > 0
  {
    var p: nat :| Starts(text, p, prefix);
    var q := if p == |text| then 0 else p;
    assert q in sa;
    var j :| 0 <= j < |sa| && sa[j] == q;
    assert Starts(text, sa[j], prefix);
  }

  /** A match with nothing behind it is the first of its run, and the only such one. */
  lemma EndIsFirst(text: string, sa: seq<nat>, prefix: string, u: nat, run: nat, choice: nat)
    requires NulFree(text) && SuffixArray(text, sa) && Run(text, sa, prefix, u, run) && choice < run
    requires sa[u + choice] + |prefix| == |text|
    ensures choice == 0
  {
    var first, last := text[sa[u]..], text[sa[u + choice]..];
    assert Starts(text, sa[u + choice], prefix) && Starts(text, sa[u], prefix);
    assert last == prefix;
    assert prefix <= first by {
      assert first[..|prefix|] == text[sa[u]..sa[u] + |prefix|];
    }
    LeastExtension(first, prefix);
    assert |first| == |last|;
  }

  lemma OnlyMatchIsDeadEnd(text: string, sa: seq<nat>, prefix: string, u: nat)
    requires SuffixArray(text, sa) && Run(text, sa, prefix, u, 1) && prefix != []
    requires sa[u] + |prefix| == |text|
    ensures DeadEndAt(text, prefix)
  {
    forall p: nat | Starts(text, p, prefix)
      ensures p == sa[u]
    {
      assert p in sa;
      var j :| 0 <= j < |sa| && sa[j] == p;
      assert Starts(text, sa[j], prefix);
    }
    assert Starts(text, sa[u], prefix);
  }

  /** Whether there is another match is asked of the next cell, without looking whether it is
      there.  If a dead end is all there is, the next cell is the one behind the array, which
      nobody stores, exactly if the prefix is the greatest suffix of the text. */
  lemma BeyondExactly(text: string, sa: seq<nat>, prefix: string, u: nat, run: nat)
    requires NulFree(text) && SuffixArray(text, sa) && Run(text, sa, prefix, u, run) && run > 0 && prefix != []
    requires sa[u] + |prefix| == |text|
    ensures u + 1 == |sa| <==> text[sa[|sa| - 1]..] == prefix
  {
    assert Starts(text, sa[u], prefix);
    assert text[sa[u]..] == prefix;
    if text[sa[|sa| - 1]..] == prefix {
      assert |text[sa[|sa| - 1]..]| == |prefix|;
    }
  }

  /** Such a text: in "aab" the last suffix in order is the last in place. */
  lemma BeyondHappens()
    ensures SuffixArray("aab", [0, 1, 2]) && Run("aab", [0, 1, 2], "b", 2, 1) && Occurs("b", "aab")
    ensures "aab"[2..] == "b"
  {
    var text, sa := "aab", [0, 1, 2];
    assert text[0..] == "aab" && text[1..] == "ab" && text[2..] == "b";
    assert text[0..][1..] == "ab" && text[1..][1..] == "b";
    assert Strcmp("aab", "aab") == 0 && Strcmp("ab", "ab") == 0 && Strcmp("b", "b") == 0 by {
      StrcmpTotal("aab", "aab");
      StrcmpTotal("ab", "ab");
      StrcmpTotal("b", "b");
    }
    assert Strcmp("ab", "b") < 0 && Strcmp("aab", "b") < 0 && Strcmp("aab", "ab") < 0;
    assert sa[0] == 0 && sa[1] == 1 && sa[2] == 2;
    assert text[0..1] == "a" && text[1..2] == "a" && text[2..3] == "b";
    assert Starts(text, 2, "b") && !Starts(text, 1, "b") && !Starts(text, 0, "b");
  }

  /** Writing the character behind a match keeps every window in the text, and the search
      can go on from the new end. */
  lemma Extend(output: string, text: string, K: nat, p: nat)
    requires K <= |output| && Windows(output, text, K)
    requires Starts(text, p, Last(output, K)) && p + K < |text|
    ensures Windows(output + [text[p + K]], text, K)
    ensures Occurs(Last(output + [text[p + K]], K), text)
  {
    var next := output + [text[p + K]];
    forall i | 0 <= i < |next| - K
      ensures Occurs(Window(next, i, K), text)
    {
      if i < |output| - K {
        assert Window(next, i, K) == Window(output, i, K);
      } else {
        assert i == |output| - K;
        assert Window(next, i, K) == Last(output, K) + [text[p + K]];
        assert text[p..p + K + 1] == text[p..p + K] + [text[p + K]];
        assert Starts(text, p, Window(next, i, K));
      }
    }
    assert Last(next, K) == text[p + 1..p + 1 + K] by {
      if K > 0 {
        assert Last(next, K) == Last(output, K)[1..] + [text[p + K]];
      }
    }
    assert Starts(text, p + 1, Last(next, K));
  }

  /** What one turn of the loop finds: a character to write, the end, or nothing yet.  `Beyond`
      is the end, too, but the program compares through the cell behind the suffix array to
      learn of it: with a null there it crashes instead of stopping, and with anything else
      there it may do anything. */
  datatype Turn = Write(c: char) | Stop | Beyond | Retry

  /** A turn exactly as the chosen position has it: the character behind the prefix if there
      is one, and otherwise the end if there is no other match. */
  ghost predicate Follows(text: string, sa: seq<nat>, prefix: string, turn: Turn, at: nat, run: nat)
    requires text != [] && SuffixArray(text, sa)
  {
    match turn
    case Write(c) => at + |prefix| < |text| && c == text[at + |prefix|]
    case Stop => at + |prefix| == |text| && run == 1 && text[sa[|sa| - 1]..] != prefix
    case Beyond => at + |prefix| == |text| && run == 1 && text[sa[|sa| - 1]..] == prefix
    case Retry => at + |prefix| == |text| && run >= 2
  }

  /** One turn: search, choose, look behind the chosen suffix. */
  method NextCharacter(text: string, sa: seq<nat>, prefix: string, rand: nat -> nat, call: nat)
    returns (turn: Turn, ghost at: nat, run: nat)
    requires NulFree(text) && text != [] && SuffixArray(text, sa) && Occurs(prefix, text)
    ensures Starts(text, at, prefix) && Chosen(text, sa, prefix, rand, call, run, at)
    ensures Follows(text, sa, prefix, turn, at, run)
    ensures turn.Stop? || turn.Beyond? ==> DeadEndAt(text, prefix)
    ensures turn.Retry? ==> Pick(DrawsFrom(rand, call, run)) == 0
  {
    OccurringIsNulFree(prefix, text);
    var u := LowerBound(text, sa, prefix);
    var choice;
    choice, run := Choose(text, sa, prefix, u, rand, call);
    RunIsNotEmpty(text, sa, prefix, u, run);
    at := sa[u + choice];
    if sa[u + choice] + |prefix| == |text| {
      EndIsFirst(text, sa, prefix, u, run, choice);
      BeyondExactly(text, sa, prefix, u, run);
      turn := AtEnd(text, sa, prefix, u, run, choice);
    } else {
      turn := Write(text[sa[u + choice] + |prefix|]);
    }
  }

  /** The chosen suffix has nothing behind the prefix. */
  method AtEnd(text: string, sa: seq<nat>, prefix: string, u: nat, ghost run: nat, choice: nat) returns (turn: Turn)
    requires NulFree(text) && NulFree(prefix) && prefix != [] && SuffixArray(text, sa)
    requires Run(text, sa, prefix, u, run) && run > 0 && choice == 0 && sa[u] + |prefix| == |text|
    ensures turn == if u + 1 == |sa| then Beyond else if run == 1 then Stop else Retry
    ensures turn != Retry ==> DeadEndAt(text, prefix)
  {
    if choice == 0 {
      if u + 1 == |sa| {
        OnlyMatchIsDeadEnd(text, sa, prefix, u);
        return Beyond;
      }
      CmpMatches(text, sa, prefix, u + 1);
      if Cmp(text, sa, prefix, u + 1) != 0 {
        OnlyMatchIsDeadEnd(text, sa, prefix, u);
        return Stop;
      }
    }
    return Retry;
  }

  ghost predicate EndsLine(s: string) {
    s != [] && s[|s| - 1] == '\n'
  }

  datatype Exit = Running | Full | Newline | DeadEnd | Crash

  /** Everything the loop keeps true of the output so far. */
  ghost predicate Faithful(output: string, text: string, K: nat, seed: nat) {
    && seed + K <= |text| && K <= |output|
    && output[..K] == text[seed..seed + K]
    && Windows(output, text, K) && Occurs(Last(output, K), text)
  }

  /** Where the seed is taken from, for a random number `r` of at most `max`. */
  function SeedStart(bytesRead: nat, r: nat, max: nat): nat {
    (bytesRead / 2) * r / (max + 1)
  }

  /** The seed starts as far into the first half as the random number is into its range, and
      lies inside a text that is at least twice as long. */
  lemma SeedFits(bytesRead: nat, r: nat, max: nat, K: nat)
    requires r <= max && 2 * K <= bytesRead
    ensures SeedStart(bytesRead, r, max) + K <= bytesRead
    ensures var half, start := bytesRead / 2, SeedStart(bytesRead, r, max);
      start * (max + 1) <= half * r < start * (max + 1) + max + 1 && (half > 0 ==> start < half)
  {
    var half := bytesRead / 2;
    var start := SeedStart(bytesRead, r, max);
    Divided(half * r, max + 1, start);
    Grows(max + 1, r, half);
    Grows(start, half, max + 1);
    Commute(half, max + 1);
    Commute(half, r);
  }

  lemma Commute(a: nat, b: nat)
    ensures a * b == b * a
  {
  }

  lemma Divided(a: nat, b: nat, q: nat)
    requires b > 0 && q == a / b
    ensures q * b <= a < q * b + b
  {
  }

  lemma Grows(a: nat, b: nat, c: nat)
    ensures a >= b ==> a * c >= b * c
    ensures a > b && c > 0 ==> a * c > b * c
  {
    assert a * c - b * c == (a - b) * c;
  }

  method Seed(text: string, buffer: array<char>, K: nat, seed: nat) returns (index: nat)
    requires seed + K <= |text| && K <= buffer.Length
    modifies buffer
    ensures index == K && buffer[..index] == text[seed..seed + K]
  {
    index := 0;
    while index < K
      invariant index <= K
      invariant forall i :: 0 <= i < index ==> buffer[i] == text[seed + i]
    {
      buffer[index] := text[index + seed];
      index := index + 1;
    }
  }

  lemma SeedIsFaithful(text: string, K: nat, seed: nat)
    requires seed + K <= |text|
    ensures Faithful(text[seed..seed + K], text, K, seed)
  {
    var output := text[seed..seed + K];
    assert Last(output, K) == output;
    assert Starts(text, seed, output);
  }

  lemma StillFaithful(before: string, after: string, text: string, K: nat, seed: nat, at: nat)
    requires Faithful(before, text, K, seed)
    requires Starts(text, at, Last(before, K)) && at + K < |text|
    requires after == before + [text[at + K]]
    ensures Faithful(after, text, K, seed)
  {
    Extend(before, text, K, at);
    assert after[..K] == before[..K];
  }

  /** How a turn that was taken with `index` characters in the output leaves the loop: at a
      newline only when there is enough output, and then always. */
  ghost predicate Leaves(turn: Turn, index: nat, outputChars: nat, exit: Exit) {
    && (exit == Newline <==> turn == Write('\n') && index >= outputChars)
    && (exit == DeadEnd <==> turn == Stop) && (exit == Crash <==> turn == Beyond)
    && exit != Full
  }

  /** One turn of the output loop: what it found, the position it chose, and how many matches
      it chose from, which is the number of draws it made. */
  datatype Step = Step(turn: Turn, at: nat, run: nat)

  /** What one step makes of the output `before`. */
  ghost predicate Stepped(text: string, sa: seq<nat>, K: nat, rand: nat -> nat, call: nat,
                          before: string, step: Step, after: string)
    requires text != [] && SuffixArray(text, sa)
  {
    && K <= |before|
    && Chosen(text, sa, Last(before, K), rand, call, step.run, step.at)
    && Follows(text, sa, Last(before, K), step.turn, step.at, step.run)
    && after == if step.turn.Write? then before + [step.turn.c] else before
  }

  /** One turn of the output loop. */
  method TakeTurn(text: string, sa: seq<nat>, K: nat, outputChars: nat, ghost seed: nat,
                  buffer: array<char>, index: nat, rand: nat -> nat, call: nat)
    returns (next: nat, exit: Exit, run: nat, ghost step: Step)
    requires NulFree(text) && text != [] && SuffixArray(text, sa)
    requires index < buffer.Length && Faithful(buffer[..index], text, K, seed)
    modifies buffer
    ensures index <= next <= index + 1 && Faithful(buffer[..next], text, K, seed)
    ensures Stepped(text, sa, K, rand, call, old(buffer[..index]), step, buffer[..next]) && run == step.run
    ensures Leaves(step.turn, index, outputChars, exit)
    ensures exit == DeadEnd || exit == Crash ==> DeadEndAt(text, Last(buffer[..next], K))
  {
    ghost var before := buffer[..index];
    var prefix := buffer[index - K..index];
    assert prefix == Last(before, K);
    next, exit := index, Running;
    var turn;
    ghost var at;
    turn, at, run := NextCharacter(text, sa, prefix, rand, call);
    step := Step(turn, at, run);
    match turn {
      case Stop =>
        exit := DeadEnd;
      case Beyond =>
        exit := Crash;
      case Retry =>
      case Write(c) =>
        if c == '\n' && index >= outputChars {
          exit := Newline;
        }
        buffer[index] := c;
        next := index + 1;
        StillFaithful(before, buffer[..next], text, K, seed, at);
    }
  }

  /** What is known of the output when the loop leaves off for a reason.  It crashes at a dead
      end that is the greatest suffix of the text and stops at any other. */
  ghost predicate Left(output: string, text: string, sa: seq<nat>, K: nat, outputChars: nat, exit: Exit)
    requires K <= |output| && text != [] && SuffixArray(text, sa)
  {
    var greatest := text[sa[|sa| - 1]..];
    match exit
    case Running => |output| <= 2 * outputChars
    case Full => |output| == 2 * outputChars
    case Newline => outputChars < |output| <= 2 * outputChars && EndsLine(output)
    case DeadEnd => |output| <= 2 * outputChars && DeadEndAt(text, Last(output, K)) && Last(output, K) != greatest
    case Crash => |output| <= 2 * outputChars && DeadEndAt(text, Last(output, K)) && Last(output, K) == greatest
  }

  /** The draws made in some turns. */
  function Calls(steps: seq<Step>): nat {
    if steps == [] then 0 else Calls(steps[..|steps| - 1]) + steps[|steps| - 1].run
  }

  /** One more turn of the loop, which left it with `exit`. */
  ghost predicate Turns(text: string, sa: seq<nat>, K: nat, outputChars: nat, rand: nat -> nat, call: nat,
                        before: string, step: Step, after: string, exit: Exit)
    requires text != [] && SuffixArray(text, sa)
  {
    && |before| < 2 * outputChars
    && Stepped(text, sa, K, rand, call, before, step, after)
    && Leaves(step.turn, |before|, outputChars, exit)
  }

  /** What the turns so far wrote behind the seed, each with the draws that were next, none of
      them behind one that left the loop or with the buffer full. */
  ghost predicate Produced(text: string, sa: seq<nat>, K: nat, outputChars: nat, rand: nat -> nat,
                           seed: string, steps: seq<Step>, output: string, exit: Exit)
    requires text != [] && SuffixArray(text, sa)
    decreases |steps|
  {
    if steps == [] then output == seed && exit == Running
    else
      var made, step := steps[..|steps| - 1], steps[|steps| - 1];
      exists before: string ::
        Produced(text, sa, K, outputChars, rand, seed, made, before, Running) &&
        Turns(text, sa, K, outputChars, rand, Calls(made), before, step, output, exit)
  }

  lemma StepProduced(text: string, sa: seq<nat>, K: nat, outputChars: nat, rand: nat -> nat, seed: string,
                     steps: seq<Step>, before: string, step: Step, output: string, exit: Exit, next: seq<Step>)
    requires text != [] && SuffixArray(text, sa) && next == steps + [step]
    requires Produced(text, sa, K, outputChars, rand, seed, steps, before, Running)
    requires Turns(text, sa, K, outputChars, rand, Calls(steps), before, step, output, exit)
    ensures Produced(text, sa, K, outputChars, rand, seed, next, output, exit)
    ensures Calls(next) == Calls(steps) + step.run
  {
    assert next[..|next| - 1] == steps;
  }

  /** What is written is a function of the text, the seed, and the random numbers: after as
      many turns, every output is the same. */
  lemma {:induction false} OutputIsDetermined(text: string, sa: seq<nat>, K: nat, outputChars: nat, rand: nat -> nat,
      seed: string, steps: seq<Step>, output: string, exit: Exit, steps': seq<Step>, output': string, exit': Exit)
    requires text != [] && SuffixArray(text, sa) && |steps| == |steps'|
    requires Produced(text, sa, K, outputChars, rand, seed, steps, output, exit)
    requires Produced(text, sa, K, outputChars, rand, seed, steps', output', exit')
    ensures steps == steps' && output == output' && exit == exit'
    decreases |steps|
  {
    if steps != [] {
      var n := |steps| - 1;
      var before := Before(text, sa, K, outputChars, rand, seed, steps, output, exit);
      var before' := Before(text, sa, K, outputChars, rand, seed, steps', output', exit');
      OutputIsDetermined(text, sa, K, outputChars, rand, seed, steps[..n], before, Running, steps'[..n], before', Running);
      TurnIsDetermined(text, sa, K, outputChars, rand, Calls(steps[..n]), before,
                       steps[n], output, exit, steps'[n], output', exit');
      SameSteps(steps, steps', n);
    }
  }

  lemma SameSteps(steps: seq<Step>, steps': seq<Step>, n: nat)
    requires |steps| == |steps'| == n + 1 && steps[..n] == steps'[..n] && steps[n] == steps'[n]
    ensures steps == steps'
  {
    assert steps == steps[..n] + [steps[n]] && steps' == steps'[..n] + [steps'[n]];
  }

  /** The output before the last turn. */
  lemma Before(text: string, sa: seq<nat>, K: nat, outputChars: nat, rand: nat -> nat,
               seed: string, steps: seq<Step>, output: string, exit: Exit) returns (before: string)
    requires text != [] && SuffixArray(text, sa) && steps != []
    requires Produced(text, sa, K, outputChars, rand, seed, steps, output, exit)
    ensures Produced(text, sa, K, outputChars, rand, seed, steps[..|steps| - 1], before, Running)
    ensures Turns(text, sa, K, outputChars, rand, Calls(steps[..|steps| - 1]), before, steps[|steps| - 1], output, exit)
  {
    before :|
      Produced(text, sa, K, outputChars, rand, seed, steps[..|steps| - 1], before, Running) &&
      Turns(text, sa, K, outputChars, rand, Calls(steps[..|steps| - 1]), before, steps[|steps| - 1], output, exit);
  }

  lemma TurnIsDetermined(text: string, sa: seq<nat>, K: nat, outputChars: nat, rand: nat -> nat, call: nat,
      before: string, step: Step, after: string, exit: Exit, step': Step, after': string, exit': Exit)
    requires text != [] && SuffixArray(text, sa)
    requires Turns(text, sa, K, outputChars, rand, call, before, step, after, exit)
    requires Turns(text, sa, K, outputChars, rand, call, before, step', after', exit')
    ensures step == step' && after == after' && exit == exit'
  {
    ChoiceIsUnique(text, sa, Last(before, K), rand, call, step.run, step.at, step'.run, step'.at);
  }

  /** The only newline behind the required length is the one that ended the loop. */
  lemma {:induction false} OneLateNewline(text: string, sa: seq<nat>, K: nat, outputChars: nat, rand: nat -> nat,
                                          seed: string, steps: seq<Step>, output: string, exit: Exit, i: nat)
    requires text != [] && SuffixArray(text, sa)
    requires Produced(text, sa, K, outputChars, rand, seed, steps, output, exit)
    requires |seed| <= i < |output| && outputChars <= i
    ensures output[i] == '\n' <==> i == |output| - 1 && exit == Newline
    decreases |steps|
  {
    if steps != [] {
      var n := |steps| - 1;
      var before := Before(text, sa, K, outputChars, rand, seed, steps, output, exit);
      LateNewline(text, sa, K, outputChars, rand, Calls(steps[..n]), before, steps[n], output, exit, i);
      if i < |before| {
        OneLateNewline(text, sa, K, outputChars, rand, seed, steps[..n], before, Running, i);
      }
    }
  }

  lemma LateNewline(text: string, sa: seq<nat>, K: nat, outputChars: nat, rand: nat -> nat, call: nat,
                    before: string, step: Step, after: string, exit: Exit, i: nat)
    requires text != [] && SuffixArray(text, sa)
    requires Turns(text, sa, K, outputChars, rand, call, before, step, after, exit)
    requires outputChars <= i < |after|
    ensures if i < |before| then after[i] == before[i] && (exit == Newline ==> i < |after| - 1)
            else i == |after| - 1 && (after[i] == '\n' <==> exit == Newline)
  {
  }

  /** The invariant of the loop. */
  ghost predicate SoFar(text: string, sa: seq<nat>, K: nat, outputChars: nat, rand: nat -> nat, seed: nat,
                        steps: seq<Step>, output: string, exit: Exit)
    requires text != [] && SuffixArray(text, sa)
  {
    && Faithful(output, text, K, seed)
    && Left(output, text, sa, K, outputChars, exit)
    && Produced(text, sa, K, outputChars, rand, text[seed..seed + K], steps, output, exit)
  }

  lemma SeedSoFar(text: string, sa: seq<nat>, K: nat, outputChars: nat, rand: nat -> nat, seed: nat)
    requires text != [] && SuffixArray(text, sa) && seed + K <= |text| && K <= 2 * outputChars
    ensures SoFar(text, sa, K, outputChars, rand, seed, [], text[seed..seed + K], Running)
  {
    SeedIsFaithful(text, K, seed);
  }

  lemma StillSoFar(text: string, sa: seq<nat>, K: nat, outputChars: nat, rand: nat -> nat, seed: nat,
                   steps: seq<Step>, before: string, step: Step, after: string, exit: Exit, next: seq<Step>)
    requires text != [] && SuffixArray(text, sa) && next == steps + [step]
    requires SoFar(text, sa, K, outputChars, rand, seed, steps, before, Running) && Faithful(after, text, K, seed)
    requires Turns(text, sa, K, outputChars, rand, Calls(steps), before, step, after, exit)
    requires exit == DeadEnd || exit == Crash ==> DeadEndAt(text, Last(after, K))
    ensures SoFar(text, sa, K, outputChars, rand, seed, next, after, exit) && Calls(next) == Calls(steps) + step.run
  {
    StepProduced(text, sa, K, outputChars, rand, text[seed..seed + K], steps, before, step, after, exit, next);
  }

  /** One output sample.  `turns` bounds how many turns of the loop are followed: a turn
      that picks the suffix at the very end of the text while there are other matches
      writes nothing and only draws again. */
  method Generate(text: string, sa: seq<nat>, K: nat, outputChars: nat, seed: nat, rand: nat -> nat, turns: nat)
    returns (output: string, exit: Exit, ghost steps: seq<Step>)
    requires NulFree(text) && text != [] && SuffixArray(text, sa)
    requires seed + K <= |text| && K <= 2 * outputChars
    ensures Faithful(output, text, K, seed) && Left(output, text, sa, K, outputChars, exit)
    ensures exit == Running ==> |output| < 2 * outputChars && |steps| == turns
    ensures |steps| <= turns && Produced(text, sa, K, outputChars, rand, text[seed..seed + K], steps, output,
                                         if exit == Full then Running else exit)
  {
    var buffer := new char[outputChars * 2](_ => '\0');
    var index: nat := Seed(text, buffer, K, seed);
    SeedSoFar(text, sa, K, outputChars, rand, seed);

    exit := Running;
    steps := [];
    var turn, call := 0, 0;
    while exit == Running && index < outputChars * 2 && turn < turns
      invariant index <= buffer.Length && turn <= turns && exit != Full
      invariant |steps| == turn && call == Calls(steps)
      invariant SoFar(text, sa, K, outputChars, rand, seed, steps, buffer[..index], exit)
      decreases turns - turn
    {
      ghost var before, made := buffer[..index], steps;
      var run;
      ghost var step;
      index, exit, run, step := TakeTurn(text, sa, K, outputChars, seed, buffer, index, rand, call);
      steps := made + [step];
      StillSoFar(text, sa, K, outputChars, rand, seed, made, before, step, buffer[..index], exit, steps);
      call := call + run;
      turn := turn + 1;
    }
    if exit == Running && index == outputChars * 2 {
      exit := Full;
    }
    output := buffer[..index];
  }

  lemma OccurringIsNulFree(s: string, text: string)
    requires NulFree(text) && Occurs(s, text)
    ensures NulFree(s)
  {
    var p: nat :| Starts(text, p, s);
    forall i | 0 <= i < |s|
      ensures s[i] != '\0'
    {
      assert s[i] == text[p..p + |s|][i];
    }
  }

  // ---------------------------------------------------------- uniformity of the choice

  function Factorial(n: nat): nat {
    if n == 0 then 1 else n * Factorial(n - 1)
  }

  /** The outcomes in `base`, each followed by any one draw from `lo` to `hi` - 1. */
  ghost function Followed(base: set<seq<nat>>, lo: nat, hi: nat): set<seq<nat>> {
    set draws, r | draws in base && lo <= r < hi :: draws + [r]
  }

  lemma InFollowed(base: set<seq<nat>>, lo: nat, hi: nat, x: seq<nat>)
    ensures x in Followed(base, lo, hi) <==> x != [] && x[..|x| - 1] in base && lo <= x[|x| - 1] < hi
  {
    if x in Followed(base, lo, hi) {
      var draws, r :| draws in base && lo <= r < hi && x == draws + [r];
      assert x[..|x| - 1] == draws;
    }
    if x != [] {
      assert x == x[..|x| - 1] + [x[|x| - 1]];
    }
  }

  lemma {:induction false} FollowedByOne(base: set<seq<nat>>, r: nat, next: nat)
    requires next == r + 1
    ensures |Followed(base, r, next)| == |base|
    decreases |base|
  {
    if base == {} {
      assert Followed(base, r, next) == {};
    } else {
      var one :| one in base;
      FollowedByOne(base - {one}, r, next);
      var all, rest := Followed(base, r, next), Followed(base - {one}, r, next);
      InFollowed(base - {one}, r, next, one + [r]);
      assert (one + [r])[..|one|] == one;
      forall x
        ensures x in all <==> x in rest || x == one + [r]
      {
        InFollowed(base, r, next, x);
        InFollowed(base - {one}, r, next, x);
        assert x != [] ==> x == x[..|x| - 1] + [x[|x| - 1]];
      }
      assert all == rest + {one + [r]};
    }
  }

  lemma FollowedSplit(base: set<seq<nat>>, lo: nat, hi: nat)
    requires lo < hi
    ensures |Followed(base, lo, hi)| == |Followed(base, lo, hi - 1)| + |Followed(base, hi - 1, hi)|
  {
    var all, init, last := Followed(base, lo, hi), Followed(base, lo, hi - 1), Followed(base, hi - 1, hi);
    forall x
      ensures x in all <==> x in init || x in last
      ensures !(x in init && x in last)
    {
      InFollowed(base, lo, hi, x);
      InFollowed(base, lo, hi - 1, x);
      InFollowed(base, hi - 1, hi, x);
    }
    assert all == init + last && init !! last;
  }

  lemma {:induction false} FollowedSize(base: set<seq<nat>>, lo: nat, hi: nat, n: nat)
    requires hi == lo + n
    ensures |Followed(base, lo, hi)| == Times(n, |base|)
    decreases n
  {
    if n == 0 {
      assert Followed(base, lo, hi) == {};
    } else {
      FollowedSplit(base, lo, hi);
      FollowedByOne(base, hi - 1, hi);
      FollowedSize(base, lo, hi - 1, n - 1);
    }
  }

  /** Multiplication, written so that one more factor is one more summand. */
  function Times(n: nat, m: nat): nat {
    if n == 0 then 0 else Times(n - 1, m) + m
  }

  lemma {:induction false} TimesIsProduct(n: nat, m: nat)
    ensures Times(n, m) == n * m
  {
    if n > 0 {
      TimesIsProduct(n - 1, m);
      assert n * m == (n - 1) * m + m;
    }
  }

  /** Every way `n` draws can come out, the i-th anywhere from 0 to i. */
  ghost function Outcomes(n: nat): set<seq<nat>> {
    if n == 0 then {[]} else Followed(Outcomes(n - 1), 0, n)
  }

  /** Those that pick match number `c`. */
  ghost function Choosing(n: nat, c: nat): set<seq<nat>> {
    set draws | draws in Outcomes(n) && Pick(draws) == c
  }

  /** A sequence of `n` draws, the i-th from 0 to i. */
  ghost predicate Draws(x: seq<nat>, n: nat) {
    |x| == n && forall i :: 0 <= i < n ==> x[i] <= i
  }

  lemma LastDraw(x: seq<nat>, n: nat)
    requires n > 0
    ensures Draws(x, n) <==> x != [] && Draws(x[..|x| - 1], n - 1) && x[|x| - 1] < n
  {
    if x != [] && Draws(x[..|x| - 1], n - 1) && x[|x| - 1] < n {
      assert x == x[..|x| - 1] + [x[|x| - 1]];
    }
  }

  lemma {:induction false} OutcomesAreDraws(n: nat, x: seq<nat>)
    ensures x in Outcomes(n) <==> Draws(x, n)
  {
    if n > 0 {
      InFollowed(Outcomes(n - 1), 0, n, x);
      LastDraw(x, n);
      if x != [] {
        OutcomesAreDraws(n - 1, x[..|x| - 1]);
      }
    }
  }

  /** The outcomes are the sequences the scan can draw, and there are n! of them. */
  lemma {:induction false} OutcomesExact(n: nat)
    ensures |Outcomes(n)| == Factorial(n)
    ensures forall x :: x in Outcomes(n) <==> Draws(x, n)
  {
    if n > 0 {
      OutcomesExact(n - 1);
      FollowedSize(Outcomes(n - 1), 0, n, n);
      TimesIsProduct(n, Factorial(n - 1));
    }
    forall x
      ensures x in Outcomes(n) <==> Draws(x, n)
    {
      OutcomesAreDraws(n, x);
    }
  }

  /** The choice is exactly uniform: of the n! outcomes, (n - 1)! pick any given
      match. */
  lemma {:induction false} ReservoirUniform(n: nat, c: nat)
    requires c < n
    ensures |Choosing(n, c)| == Factorial(n - 1)
  {
    if c == n - 1 {
      PickedLast(n);
      FollowedSize(Outcomes(n - 1), 0, 1, 1);
      TimesIsProduct(1, Factorial(n - 1));
      OutcomesExact(n - 1);
    } else {
      ReservoirUniform(n - 1, c);
      PickedEarlier(n, c);
      FollowedSize(Choosing(n - 1, c), 1, n, n - 1);
      TimesIsProduct(n - 1, Factorial(n - 2));
    }
  }

  lemma PickedLast(n: nat)
    requires n > 0
    ensures Choosing(n, n - 1) == Followed(Outcomes(n - 1), 0, 1)
  {
    OutcomesExact(n - 1);
    var picked, followed := Choosing(n, n - 1), Followed(Outcomes(n - 1), 0, 1);
    forall x
      ensures x in picked <==> x in followed
    {
      InFollowed(Outcomes(n - 1), 0, n, x);
      InFollowed(Outcomes(n - 1), 0, 1, x);
    }
  }

  /** An earlier match is picked by the outcomes that picked it before and then drew
      anything but zero. */
  lemma PickedEarlier(n: nat, c: nat)
    requires c < n - 1
    ensures Choosing(n, c) == Followed(Choosing(n - 1, c), 1, n)
  {
    OutcomesExact(n - 1);
    forall x
      ensures x in Choosing(n, c) <==> x in Followed(Choosing(n - 1, c), 1, n)
    {
      InFollowed(Outcomes(n - 1), 0, n, x);
      InFollowed(Choosing(n - 1, c), 1, n, x);
    }
  }
}
