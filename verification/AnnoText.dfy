/** The text side of `annocat`: escaping special characters and renaming job ids. */
module AnnoText {
  import opened Options

  // ----------------------------------------------------------------------- escaping

  /** Replace every occurrence of one character: `s/c/by/g`. */
  function Substituted(s: string, c: char, entity: string): string {
    if s == "" then "" else (if s[0] == c then entity else [s[0]]) + Substituted(s[1..], c, entity)
  }

  /** The program's four substitutions, one after the other. */
  function EscapeSpecials(data: string): string {
    Substituted(Substituted(Substituted(Substituted(data, '&', "&amp;"), '<', "&lt;"), '>', "&gt;"), '\"', "&quot;")
  }

  function Entity(c: char): string {
    match c
    case '&' => "&amp;"
    case '<' => "&lt;"
    case '>' => "&gt;"
    case '\"' => "&quot;"
    case _ => [c]
  }

  /** Every character replaced on its own, all at once. */
  function Escaped(s: string): string {
    if s == "" then "" else Entity(s[0]) + Escaped(s[1..])
  }

  lemma {:induction false} SubstitutedJoin(a: string, b: string, c: char, entity: string)
    ensures Substituted(a + b, c, entity) == Substituted(a, c, entity) + Substituted(b, c, entity)
  {
    if a == "" {
      assert a + b == b;
    } else {
      var s, x := a + b, if a[0] == c then entity else [a[0]];
      SubstitutedJoin(a[1..], b, c, entity);
      assert s[0] == a[0] && s[1..] == a[1..] + b;
      Assoc(x, Substituted(a[1..], c, entity), Substituted(b, c, entity));
    }
  }

  lemma Assoc(a: string, b: string, c: string)
    ensures a + (b + c) == (a + b) + c
  {
  }

  lemma {:induction false} Untouched(s: string, c: char, entity: string)
    requires c !in s
    ensures Substituted(s, c, entity) == s
  {
    if s != "" {
      Untouched(s[1..], c, entity);
    }
  }

  lemma SubstitutedOne(c: char, d: char, entity: string)
    ensures Substituted([c], d, entity) == if c == d then entity else [c]
  {
    assert [c][1..] == "";
  }

  /** An entity is not touched by the substitutions after its own. */
  lemma EntityStays(e: string)
    requires '\"' !in e
    ensures var last := Substituted(e, '\"', "&quot;");
      && last == e
      && ('>' !in e ==> Substituted(Substituted(e, '>', "&gt;"), '\"', "&quot;") == e)
      && ('>' !in e && '<' !in e ==>
            Substituted(Substituted(Substituted(e, '<', "&lt;"), '>', "&gt;"), '\"', "&quot;") == e)
  {
    Untouched(e, '\"', "&quot;");
    if '>' !in e {
      Untouched(e, '>', "&gt;");
      if '<' !in e {
        Untouched(e, '<', "&lt;");
      }
    }
  }

  lemma EntityIsPlain(c: char, d: char)
    requires c != d && (d == '<' || d == '>' || d == '\"')
    ensures d !in Entity(c)
  {
  }

  lemma EntityOfEarlier(c: char)
    requires c == '&' || c == '<' || c == '>'
    ensures var e := Entity(c);
      && Substituted(e, '\"', "&quot;") == e
      && (c != '>' ==> Substituted(Substituted(e, '>', "&gt;"), '\"', "&quot;") == e)
      && (c == '&' ==> Substituted(Substituted(Substituted(e, '<', "&lt;"), '>', "&gt;"), '\"', "&quot;") == e)
  {
    EntityIsPlain(c, '\"');
    if c != '>' {
      EntityIsPlain(c, '>');
      if c != '<' {
        EntityIsPlain(c, '<');
      }
    }
    EntityStays(Entity(c));
  }

  lemma EscapeOne(c: char)
    ensures EscapeSpecials([c]) == Entity(c)
  {
    SubstitutedOne(c, '&', Entity('&'));
    SubstitutedOne(c, '<', Entity('<'));
    SubstitutedOne(c, '>', Entity('>'));
    SubstitutedOne(c, '\"', Entity('\"'));
    if c == '&' || c == '<' || c == '>' {
      EntityOfEarlier(c);
    }
  }

  lemma EscapeJoin(a: string, b: string)
    ensures EscapeSpecials(a + b) == EscapeSpecials(a) + EscapeSpecials(b)
  {
    var a1, b1 := Substituted(a, '&', "&amp;"), Substituted(b, '&', "&amp;");
    var a2, b2 := Substituted(a1, '<', "&lt;"), Substituted(b1, '<', "&lt;");
    var a3, b3 := Substituted(a2, '>', "&gt;"), Substituted(b2, '>', "&gt;");
    SubstitutedJoin(a, b, '&', "&amp;");
    SubstitutedJoin(a1, b1, '<', "&lt;");
    SubstitutedJoin(a2, b2, '>', "&gt;");
    SubstitutedJoin(a3, b3, '\"', "&quot;");
  }

  /** No substitution touches what an earlier one wrote: the four of them escape each
      character once. */
  lemma {:induction false} EscapeIsSimultaneous(data: string)
    ensures EscapeSpecials(data) == Escaped(data)
  {
    if data != "" {
      EscapeIsSimultaneous(data[1..]);
      EscapeJoin([data[0]], data[1..]);
      EscapeOne(data[0]);
      assert data == [data[0]] + data[1..];
    }
  }

  function Before(c: char, rest: Option<string>): Option<string> {
    if rest.Some? then Some([c] + rest.value) else None
  }

  /** Expanding the predefined entities of section 4.6 of XML 1.0; any other ampersand is
      an error. */
  function Expanded(s: string): Option<string> {
    if s == "" then Some("")
    else if s[0] != '&' then Before(s[0], Expanded(s[1..]))
    else if "&lt;" <= s then Before('<', Expanded(s[4..]))
    else if "&gt;" <= s then Before('>', Expanded(s[4..]))
    else if "&amp;" <= s then Before('&', Expanded(s[5..]))
    else if "&apos;" <= s then Before('\'', Expanded(s[6..]))
    else if "&quot;" <= s then Before('\"', Expanded(s[6..]))
    else None
  }

  lemma ExpandOne(c: char, rest: string)
    ensures Expanded(Entity(c) + rest) == Before(c, Expanded(rest))
  {
    var s := Entity(c) + rest;
    assert s[|Entity(c)|..] == rest;
    if |Entity(c)| > 1 {
      assert Entity(c) <= s && s[1] == Entity(c)[1];
      assert "&gt;"[1] == 'g' && "&amp;"[1] == 'a' && "&quot;"[1] == 'q' && "&lt;"[1] == 'l' && "&apos;"[1] == 'a';
    }
  }

  /** What is written reads back as what was meant, for every text. */
  lemma {:induction false} EscapeRoundTrip(data: string)
    ensures Expanded(EscapeSpecials(data)) == Some(data)
  {
    EscapeIsSimultaneous(data);
    if data != "" {
      EscapeRoundTrip(data[1..]);
      EscapeIsSimultaneous(data[1..]);
      ExpandOne(data[0], Escaped(data[1..]));
      assert data == [data[0]] + data[1..];
    }
  }

  /** Nothing in it can open or close a tag, or end an attribute value. */
  lemma {:induction false} EscapedIsPlain(data: string)
    ensures forall c :: c in EscapeSpecials(data) ==> c != '<' && c != '>' && c != '\"'
  {
    EscapeIsSimultaneous(data);
    if data != "" {
      EscapedIsPlain(data[1..]);
      EscapeIsSimultaneous(data[1..]);
      forall c | c in Escaped(data)
        ensures c in Entity(data[0]) || c in Escaped(data[1..])
      {
      }
    }
  }

  // ------------------------------------------------------------------------- job ids

  /** `s/J/J<build>_/`: the first J gets the build id behind it. */
  function ScopeJobId(build: string, job: string): string {
    if job == "" then ""
    else if job[0] == 'J' then "J" + build + "_" + job[1..]
    else [job[0]] + ScopeJobId(build, job[1..])
  }

  lemma {:induction false} ScopedHasBoth(build: string, job: string)
    ensures 'J' in job ==> 'J' in ScopeJobId(build, job) && '_' in ScopeJobId(build, job)
    ensures 'J' !in job ==> ScopeJobId(build, job) == job
  {
    if job != "" && job[0] != 'J' {
      ScopedHasBoth(build, job[1..]);
      var s, tail := ScopeJobId(build, job), ScopeJobId(build, job[1..]);
      assert forall c :: c in tail ==> c in s;
    } else if job != "" {
      var s := ScopeJobId(build, job);
      assert s[0] == 'J' && s[1 + |build|] == '_';
    }
  }

  lemma SplitAtUnderscore(a: string, x: string, b: string, y: string)
    requires a + "_" + x == b + "_" + y
    ensures (a == b && x == y) || a + "_" <= b || b + "_" <= a
  {
    var s := a + "_" + x;
    assert s[..|a|] == a && s[..|b|] == b && s[|a|] == '_' && s[|b|] == '_';
    assert s[|a| + 1..] == x && s[|b| + 1..] == y;
    if |a| < |b| {
      assert b[..|a| + 1] == a + "_";
    } else if |b| < |a| {
      assert a[..|b| + 1] == b + "_";
    }
  }

  /** Two ids that get the same name are the same id of the same build, or one build id
      begins with the other and an underscore. */
  lemma {:induction false} ScopedAlike(b1: string, j1: string, b2: string, j2: string)
    requires 'J' in j1 && 'J' in j2 && ScopeJobId(b1, j1) == ScopeJobId(b2, j2)
    ensures (b1 == b2 && j1 == j2) || b1 + "_" <= b2 || b2 + "_" <= b1
  {
    assert ScopeJobId(b1, j1)[0] == j1[0] && ScopeJobId(b2, j2)[0] == j2[0];
    assert ScopeJobId(b1, j1)[1..] == ScopeJobId(b2, j2)[1..];
    if j1[0] == 'J' {
      assert ScopeJobId(b1, j1)[1..] == b1 + "_" + j1[1..];
      assert ScopeJobId(b2, j2)[1..] == b2 + "_" + j2[1..];
      SplitAtUnderscore(b1, j1[1..], b2, j2[1..]);
    } else {
      assert ScopeJobId(b1, j1)[1..] == ScopeJobId(b1, j1[1..]);
      assert ScopeJobId(b2, j2)[1..] == ScopeJobId(b2, j2[1..]);
      ScopedAlike(b1, j1[1..], b2, j2[1..]);
    }
    assert j1 == [j1[0]] + j1[1..] && j2 == [j2[0]] + j2[1..];
  }

  lemma LongerHasUnderscore(a: string, b: string)
    ensures a + "_" <= b ==> '_' in b
  {
    if a + "_" <= b {
      assert b[|a|] == '_';
    }
  }

  /** Where an id has its first J. */
  function JAt(job: string): (p: nat)
    requires 'J' in job
    ensures p < |job| && job[p] == 'J'
  {
    if job[0] == 'J' then 0 else 1 + JAt(job[1..])
  }

  /** Two jobs get the same name exactly if neither id has a J and they are the same, or both
      have one, are the same up to it, and the build id with what follows reads the same. */
  lemma SameNameExactly(b1: string, j1: string, b2: string, j2: string)
    ensures ScopeJobId(b1, j1) == ScopeJobId(b2, j2) <==>
      if 'J' in j1 && 'J' in j2 then
        j1[..JAt(j1)] == j2[..JAt(j2)] && b1 + "_" + j1[JAt(j1) + 1..] == b2 + "_" + j2[JAt(j2) + 1..]
      else 'J' !in j1 && 'J' !in j2 && j1 == j2
  {
    ScopedHasBoth(b1, j1);
    ScopedHasBoth(b2, j2);
    if 'J' in j1 && 'J' in j2 {
      ScopedParts(b1, j1);
      ScopedParts(b2, j2);
      SplitAtJ(j1[..JAt(j1)], b1 + "_" + j1[JAt(j1) + 1..], j2[..JAt(j2)], b2 + "_" + j2[JAt(j2) + 1..]);
    }
  }

  lemma {:induction false} ScopedParts(build: string, job: string)
    requires 'J' in job
    ensures 'J' !in job[..JAt(job)]
    ensures ScopeJobId(build, job) == job[..JAt(job)] + "J" + (build + "_" + job[JAt(job) + 1..])
  {
    if job[0] == 'J' {
      assert job[..0] == "";
    } else {
      ScopedParts(build, job[1..]);
      var p := JAt(job);
      assert job[..p] == [job[0]] + job[1..][..p - 1];
      assert job[p + 1..] == job[1..][p..];
    }
  }

  lemma {:induction false} FirstJ(a: string, x: string, s: string)
    requires 'J' !in a && s == a + "J" + x
    ensures 'J' in s && JAt(s) == |a|
  {
    assert s[|a|] == 'J';
    if a != "" {
      assert s[0] == a[0];
      FirstJ(a[1..], x, s[1..]);
    }
  }

  lemma SplitAtJ(a: string, x: string, b: string, y: string)
    requires 'J' !in a && 'J' !in b
    ensures a + "J" + x == b + "J" + y <==> a == b && x == y
  {
    var s, t := a + "J" + x, b + "J" + y;
    FirstJ(a, x, s);
    FirstJ(b, y, t);
    assert s[..|a|] == a && t[..|b|] == b && s[|a| + 1..] == x && t[|b| + 1..] == y;
  }

  /** Underscore-free build ids keep all jobs apart whose ids have a J; an id without one is
      the same name in every build. */
  lemma ScopeIsInjective(b1: string, j1: string, b2: string, j2: string)
    requires '_' !in b1 && '_' !in b2
    ensures ScopeJobId(b1, j1) == ScopeJobId(b2, j2) <==> j1 == j2 && (b1 == b2 || 'J' !in j1)
  {
    ScopedHasBoth(b1, j1);
    ScopedHasBoth(b2, j2);
    LongerHasUnderscore(b1, b2);
    LongerHasUnderscore(b2, b1);
    if 'J' in j1 && 'J' in j2 && ScopeJobId(b1, j1) == ScopeJobId(b2, j2) {
      ScopedAlike(b1, j1, b2, j2);
    }
  }

  /** Within one build, ids are never confused, whatever the build is called. */
  lemma ScopeWithinBuild(build: string, j1: string, j2: string)
    requires ScopeJobId(build, j1) == ScopeJobId(build, j2)
    ensures j1 == j2
  {
    ScopedHasBoth(build, j1);
    ScopedHasBoth(build, j2);
    if 'J' in j1 {
      ScopedAlike(build, j1, build, j2);
    }
  }

  ghost predicate Collide(b1: string, b2: string) {
    exists j1, j2 :: 'J' in j1 && 'J' in j2 && ScopeJobId(b1, j1) == ScopeJobId(b2, j2)
  }

  lemma Collision(b1: string, b2: string)
    requires b1 + "_" <= b2
    ensures Collide(b1, b2)
  {
    var x := b2[|b1| + 1..];
    assert b2 == b1 + "_" + x;
    var j1, j2 := "J" + x + "_", "J";
    assert j1[0] == 'J' && j2[0] == 'J';
    assert j1[1..] == x + "_" && j2[1..] == "";
    assert ScopeJobId(b1, j1) == ScopeJobId(b2, j2);
  }

  /** Two builds can have jobs of the same name, with a J in their ids, exactly when one build
      id begins with the other and an underscore. */
  lemma CollideExactly(b1: string, b2: string)
    requires b1 != b2
    ensures Collide(b1, b2) <==> b1 + "_" <= b2 || b2 + "_" <= b1
  {
    if Collide(b1, b2) {
      var j1, j2 :| 'J' in j1 && 'J' in j2 && ScopeJobId(b1, j1) == ScopeJobId(b2, j2);
      ScopedAlike(b1, j1, b2, j2);
    }
    if b1 + "_" <= b2 {
      Collision(b1, b2);
    }
    if b2 + "_" <= b1 {
      Collision(b2, b1);
      var j2, j1 :| 'J' in j2 && 'J' in j1 && ScopeJobId(b2, j2) == ScopeJobId(b1, j1);
      assert ScopeJobId(b1, j1) == ScopeJobId(b2, j2);
    }
  }

  // ------------------------------------------------------------------------ fake ids

  function Digits(n: nat): (s: string)
    ensures s != "" && forall c :: c in s ==> '0' <= c <= '9'
  {
    (if n < 10 then "" else Digits(n / 10)) + [('0' as int + n % 10) as char]
  }

  function Padded(s: string): string
    decreases 8 - |s|
  {
    if |s| >= 8 then s else Padded("0" + s)
  }

  /** `J%08d` */
  function FakeId(n: nat): string {
    "J" + Padded(Digits(n))
  }

  function Value(s: string): int {
    if s == "" then 0 else 10 * Value(s[..|s| - 1]) + (s[|s| - 1] as int - '0' as int)
  }

  lemma {:induction false} ValueOfDigits(n: nat)
    ensures Value(Digits(n)) == n
  {
    var s := Digits(n);
    if n < 10 {
      assert s[..|s| - 1] == "";
    } else {
      assert s[..|s| - 1] == Digits(n / 10);
      ValueOfDigits(n / 10);
    }
  }

  lemma {:induction false} ValueOfZero(s: string)
    ensures Value("0" + s) == Value(s)
  {
    var t := "0" + s;
    if s == "" {
      assert t[..0] == "";
    } else {
      assert t[..|t| - 1] == "0" + s[..|s| - 1];
      ValueOfZero(s[..|s| - 1]);
    }
  }

  lemma {:induction false} PaddedKeeps(s: string)
    ensures Value(Padded(s)) == Value(s)
    ensures '_' !in s ==> '_' !in Padded(s)
    decreases 8 - |s|
  {
    if |s| < 8 {
      PaddedKeeps("0" + s);
      ValueOfZero(s);
    }
  }

  /** Different numbers give different fake ids, even beyond eight digits. */
  lemma FakeIdIsInjective(m: nat, n: nat)
    requires FakeId(m) == FakeId(n)
    ensures m == n
  {
    assert FakeId(m)[1..] == Padded(Digits(m)) && FakeId(n)[1..] == Padded(Digits(n));
    PaddedKeeps(Digits(m));
    PaddedKeeps(Digits(n));
    ValueOfDigits(m);
    ValueOfDigits(n);
  }

  /** No id of a real job, however odd, is ever renamed to a fake one. */
  lemma ScopedIsNotFake(build: string, job: string, n: nat)
    ensures ScopeJobId(build, job) != FakeId(n)
  {
    ScopedHasBoth(build, job);
    PaddedKeeps(Digits(n));
    assert FakeId(n)[0] == 'J';
    assert '_' !in FakeId(n);
  }
}
