/** Name lookup in lofs: finding the lower dentry, following mounts from it, and interposing
    a lofs dentry.  What lofs acquires on the way is counted; what it finds is compared with
    the ordinary walk through the lower tree. */
module LofsLookup {
  import opened Options

  type Dentry = nat
  type Mount = nat
  type Name = string

  datatype Path = Path(mnt: Mount, dentry: Dentry)

  datatype Error = Stale | Denied | Invalid | NoMemory | Other(code: int)

  /** The kernel as lofs finds it.  `mounted` says which file system covers a path,
      `height` that mounts are stacked finitely; `child` is the lower tree, whose dentries
      may be negative (no inode), managed, or themselves of lofs. */
  datatype Kernel = Kernel(
    mounted: map<Path, Path>,
    height: Mount -> nat,
    child: (Dentry, Name) -> Dentry,
    negative: Dentry -> bool,
    managed: Dentry -> bool,
    ofLofs: Dentry -> bool)
  {
    ghost predicate Valid() {
      forall p :: p in mounted ==> height(mounted[p].mnt) < height(p.mnt)
    }

    /** `d_mountpoint`: something is mounted on this dentry, in whichever mount. */
    predicate IsMountpoint(d: Dentry) {
      exists p :: p in mounted && p.dentry == d
    }
  }

  /** Every mount on top of a path followed: what an ordinary lookup does. */
  ghost function Followed(k: Kernel, p: Path): (end: Path)
    requires k.Valid()
    decreases k.height(p.mnt)
    ensures end !in k.mounted
  {
    if p in k.mounted then Followed(k, k.mounted[p]) else p
  }

  predicate MountedOn(k: Kernel, p: Path, q: Path) {
    p in k.mounted && k.mounted[p] == q
  }

  /** Paths of which each is mounted on the one before. */
  ghost predicate MountChain(k: Kernel, chain: seq<Path>) {
    forall i, j :: 0 <= i && j == i + 1 && j < |chain| ==> MountedOn(k, chain[i], chain[j])
  }

  lemma ChainGrows(k: Kernel, p: Path, rest: seq<Path>)
    requires MountChain(k, rest) && rest != [] && MountedOn(k, p, rest[0])
    ensures MountChain(k, [p] + rest)
  {
    var chain := [p] + rest;
    forall i, j | 0 <= i && j == i + 1 && j < |chain|
      ensures MountedOn(k, chain[i], chain[j])
    {
      var i', j' := i - 1, j - 1;
      assert chain[j] == rest[j'];
      if i > 0 {
        assert j' == i' + 1 && chain[i] == rest[i'];
      }
    }
  }

  /** That is where the chain of mounts on the path ends. */
  lemma {:induction false} FollowedIsChain(k: Kernel, p: Path) returns (chain: seq<Path>)
    requires k.Valid()
    ensures chain != [] && chain[0] == p && chain[|chain| - 1] == Followed(k, p) && MountChain(k, chain)
    ensures Followed(k, p) !in k.mounted
    decreases k.height(p.mnt)
  {
    if p in k.mounted {
      var rest := FollowedIsChain(k, k.mounted[p]);
      chain := [p] + rest;
      ChainGrows(k, p, rest);
    } else {
      chain := [p];
    }
  }

  /** The references lofs holds on lower dentries and mounts, and the lock it takes on the
      lower directory. */
  class Held {
    var dentries: multiset<Dentry>
    var mounts: multiset<Mount>
    var locked: bool

    constructor ()
      ensures dentries == multiset{} && mounts == multiset{} && !locked
    {
      dentries, mounts, locked := multiset{}, multiset{}, false;
    }

    /** Exactly one reference on each half of `p`, besides those held before. */
    ghost predicate Holds(ds: multiset<Dentry>, ms: multiset<Mount>, p: Path)
      reads this
    {
      dentries == ds + multiset{p.dentry} && mounts == ms + multiset{p.mnt}
    }

    method Lock()
      requires !locked
      modifies this`locked
      ensures locked
    {
      locked := true;
    }

    method Unlock()
      requires locked
      modifies this`locked
      ensures !locked
    {
      locked := false;
    }

    /** The kernel hands out a reference. */
    method Get(d: Dentry)
      modifies this`dentries
      ensures dentries == old(dentries) + multiset{d}
    {
      dentries := dentries + multiset{d};
    }

    /** `dput`, on a reference lofs does hold. */
    method Put(d: Dentry)
      requires d in dentries
      modifies this`dentries
      ensures dentries == old(dentries) - multiset{d}
    {
      dentries := dentries - multiset{d};
    }

    method GetMount(m: Mount)
      modifies this`mounts
      ensures mounts == old(mounts) + multiset{m}
    {
      mounts := mounts + multiset{m};
    }

    method PutMount(m: Mount)
      requires m in mounts
      modifies this`mounts
      ensures mounts == old(mounts) - multiset{m}
    {
      mounts := mounts - multiset{m};
    }

    /** Both halves of `p` given back. */
    method PutPath(p: Path, ghost ds: multiset<Dentry>, ghost ms: multiset<Mount>)
      requires Holds(ds, ms, p)
      modifies this`dentries, this`mounts
      ensures dentries == ds && mounts == ms
    {
      Put(p.dentry);
      PutMount(p.mnt);
    }

    /** References on `next` taken, those on `p` given back. */
    method Exchange(p: Path, next: Path, ghost ds: multiset<Dentry>, ghost ms: multiset<Mount>)
      requires Holds(ds, ms, p)
      modifies this`dentries, this`mounts
      ensures Holds(ds, ms, next)
    {
      Get(next.dentry);
      GetMount(next.mnt);
      Put(p.dentry);
      PutMount(p.mnt);
    }
  }

  /** A lofs dentry: the lower path it stands for once it has private data, and what the
      lookup left it as. */
  datatype Hashing = Untouched | Dropped | AddedNegative | AddedPositive

  class LofsDentry {
    var lower: Option<Path>
    var hashing: Hashing

    constructor ()
      ensures lower == None && hashing == Untouched
    {
      lower, hashing := None, Untouched;
    }
  }

  // -------------------------------------------------------------- lofs_follow_down

  /** `follow_down`: one mount, the references exchanged; false if nothing is mounted. */
  method FollowOne(k: Kernel, h: Held, p: Path, ghost ds: multiset<Dentry>, ghost ms: multiset<Mount>)
    returns (moved: bool, next: Path)
    requires h.Holds(ds, ms, p)
    modifies h`dentries, h`mounts
    ensures moved <==> p in k.mounted
    ensures next == if moved then k.mounted[p] else p
    ensures h.Holds(ds, ms, next)
  {
    if p in k.mounted {
      next := k.mounted[p];
      h.Exchange(p, next, ds, ms);
      moved := true;
    } else {
      moved, next := false, p;
    }
  }

  /** What `lofs_lookup_managed` answers for a managed dentry: on success a path with its own
      references, on failure nothing. */
  datatype Managed = Resolved(path: Path) | Failed(error: Error)

  /** The loop of `lofs_follow_down`: every mount on top of the path. */
  method FollowMounts(k: Kernel, h: Held, p: Path, ghost ds: multiset<Dentry>, ghost ms: multiset<Mount>)
    returns (end: Path)
    requires k.Valid() && h.Holds(ds, ms, p)
    modifies h`dentries, h`mounts
    ensures h.Holds(ds, ms, end)
    ensures end == Followed(k, p)
  {
    end := p;
    while k.IsMountpoint(end.dentry)
      invariant h.Holds(ds, ms, end)
      invariant Followed(k, end) == Followed(k, p)
      decreases k.height(end.mnt)
    {
      var moved;
      moved, end := FollowOne(k, h, end, ds, ms);
      if !moved {
        break;
      }
    }
  }

  /** `lofs_follow_down`. */
  method FollowDown(k: Kernel, h: Held, p: Path, managed: Managed, ghost ds: multiset<Dentry>, ghost ms: multiset<Mount>)
    returns (error: Option<Error>, end: Path)
    requires k.Valid() && h.Holds(ds, ms, p)
    modifies h`dentries, h`mounts
    ensures h.Holds(ds, ms, end)
    ensures !k.managed(Followed(k, p).dentry) ==> error == None && end == Followed(k, p)
    ensures k.managed(Followed(k, p).dentry) ==>
      match managed
      case Failed(e) => error == Some(e) && end == Followed(k, p)
      case Resolved(q) => error == None && end == if q in k.mounted then k.mounted[q] else q
  {
    end := FollowMounts(k, h, p, ds, ms);
    error := None;
    if k.managed(end.dentry) {
      match managed {
        case Failed(e) =>
          error := Some(e);
        case Resolved(q) =>
          h.Exchange(end, q, ds, ms);
          var moved;
          moved, end := FollowOne(k, h, q, ds, ms);
      }
    }
  }

  // ----------------------------------------- lofs_lookup_and_interpose_lower

  /** What happens besides: whether memory can be had, and how the inode is acquired. */
  datatype Luck = Luck(managed: Managed, memory: bool, inode: Option<Error>)

  /** `lofs_lookup_and_interpose_lower`, given the reference on `found` it consumes. */
  method Interpose(k: Kernel, h: Held, dentry: LofsDentry, parentMnt: Mount, found: Dentry, luck: Luck,
                   ghost ds: multiset<Dentry>, ghost ms: multiset<Mount>)
    returns (error: Option<Error>)
    requires k.Valid() && dentry.lower == None
    requires h.dentries == ds + multiset{found} && h.mounts == ms
    modifies h`dentries, h`mounts, dentry
    ensures h.dentries == ds + StoredDentry(dentry) && h.mounts == ms + StoredMount(dentry)
    ensures Interposed(k, dentry.lower, Followed(k, Path(parentMnt, found)), luck, error)
    ensures dentry.hashing ==
      if dentry.lower == None then Dropped
      else if k.negative(dentry.lower.value.dentry) then AddedNegative
      else if error == None then AddedPositive
      else old(dentry.hashing)
  {
    h.GetMount(parentMnt);
    var rc, end := FollowDown(k, h, Path(parentMnt, found), luck.managed, ds, ms);
    if rc != None {
      h.PutPath(end, ds, ms);
      dentry.hashing := Dropped;
      return rc;
    }
    if k.ofLofs(end.dentry) {
      h.PutPath(end, ds, ms);
      dentry.hashing := Dropped;
      return Some(Invalid);
    }
    if !luck.memory {
      h.PutPath(end, ds, ms);
      dentry.hashing := Dropped;
      return Some(NoMemory);
    }
    dentry.lower := Some(end);
    if k.negative(end.dentry) {
      dentry.hashing := AddedNegative;
      return None;
    }
    if luck.inode.Some? {
      return luck.inode;
    }
    dentry.hashing := AddedPositive;
    return None;
  }

  /** What an interposition comes to when the mounts followed lead to `end`, in every case:
      the path where a managed lookup, if one is needed, leads to is stored unless it is in
      lofs or there is no memory. */
  ghost predicate Interposed(k: Kernel, lower: Option<Path>, end: Path, luck: Luck, error: Option<Error>) {
    if !k.managed(end.dentry) then Placed(k, lower, end, luck, error)
    else
      match luck.managed
      case Failed(e) => lower == None && error == Some(e)
      case Resolved(q) => Placed(k, lower, if q in k.mounted then k.mounted[q] else q, luck, error)
  }

  ghost predicate Placed(k: Kernel, lower: Option<Path>, end: Path, luck: Luck, error: Option<Error>) {
    if k.ofLofs(end.dentry) then lower == None && error == Some(Invalid)
    else if !luck.memory then lower == None && error == Some(NoMemory)
    else lower == Some(end) && error == if k.negative(end.dentry) then None else luck.inode
  }

  /** No lofs dentry stands for one of lofs itself; one that was looked up without an error
      stands for a lower path; without managed dentries that is the one with every mount
      followed, and only lofs itself or lack of memory keeps it out. */
  lemma InterposedIsLower(k: Kernel, lower: Option<Path>, end: Path, luck: Luck, error: Option<Error>)
    requires Interposed(k, lower, end, luck, error)
    ensures lower.Some? ==> !k.ofLofs(lower.value.dentry)
    ensures error == None ==> lower.Some?
    ensures !k.managed(end.dentry) ==>
      && (lower.Some? ==> lower.value == end)
      && (lower.Some? <==> !k.ofLofs(end.dentry) && luck.memory)
      && (error == None <==> lower.Some? && (k.negative(end.dentry) || luck.inode == None))
  {
  }

  ghost function StoredDentry(dentry: LofsDentry): multiset<Dentry>
    reads dentry
  {
    if dentry.lower.Some? then multiset{dentry.lower.value.dentry} else multiset{}
  }

  ghost function StoredMount(dentry: LofsDentry): multiset<Mount>
    reads dentry
  {
    if dentry.lower.Some? then multiset{dentry.lower.value.mnt} else multiset{}
  }

  // -------------------------------------------------------------------- lofs_lookup

  /** How the lower directory answers: a cached dentry, whether it revalidates (positive,
      zero, or an error), whether it can be invalidated, and what a fresh lookup gives. */
  datatype Directory = Directory(cached: Option<Dentry>, valid: int, invalidated: bool, direct: Option<Dentry>, failure: Error)
  {
    /** The dentry the lookup goes on with, if any: a cached one that is valid or that cannot
        be invalidated, else what a fresh lookup gives, unless revalidation fails. */
    function Found(): (r: Option<Dentry>)
      ensures cached == None ==> r == direct
      ensures cached.Some? && valid < 0 ==> r == None
      ensures cached.Some? && (valid > 0 || (valid == 0 && !invalidated)) ==> r == cached
      ensures cached.Some? && valid == 0 && invalidated ==> r == direct
    {
      if cached.Some? && valid < 0 then None
      else if cached.Some? && (valid > 0 || !invalidated) then cached
      else direct
    }
  }

  /** The first half of `lofs_lookup`: the dentry in the lower directory, with a reference,
      under the directory's lock wherever that is needed. */
  method FindLower(h: Held, dir: Directory) returns (lower: Option<Dentry>, error: Option<Error>)
    requires !h.locked
    modifies h`dentries, h`locked
    ensures !h.locked && lower == dir.Found()
    // a cached dentry is kept if it is valid or cannot be invalidated
    ensures dir.cached.Some? && (dir.valid > 0 || (dir.valid == 0 && !dir.invalidated)) ==> lower == dir.cached
    // an error of the revalidation is reported
    ensures dir.cached.Some? && dir.valid < 0 ==> lower == None && error == Some(Other(dir.valid))
    // without a cached dentry, or when it has been invalidated, the directory is asked
    ensures dir.cached == None || (dir.valid == 0 && dir.invalidated) ==>
      lower == dir.direct && (lower == None ==> error == Some(dir.failure))
    ensures h.dentries == if lower.Some? then old(h.dentries) + multiset{lower.value} else old(h.dentries)
    ensures error.Some? <==> lower == None
  {
    error := None;
    h.Lock();
    lower := dir.cached;
    if lower.Some? {
      h.Get(lower.value);
      h.Unlock();
      if dir.valid <= 0 {
        if dir.valid < 0 {
          h.Put(lower.value);
          return None, Some(Other(dir.valid));
        }
        if dir.invalidated {
          h.Put(lower.value);
          lower := None;
          h.Lock();
        }
      }
    }
    if lower == None {
      lower := dir.direct;
      h.Unlock();
      if lower == None {
        return None, Some(dir.failure);
      }
      h.Get(lower.value);
    }
  }

  /** `lofs_lookup` */
  method Lookup(k: Kernel, h: Held, dentry: LofsDentry, name: Name, parent: Path, dir: Directory, luck: Luck)
    returns (error: Option<Error>)
    requires k.Valid() && !h.locked && dentry.lower == None
    modifies h, dentry
    ensures !h.locked
    ensures h.dentries == old(h.dentries) + StoredDentry(dentry)
    ensures h.mounts == old(h.mounts) + StoredMount(dentry)
    ensures name == "." || name == ".." ==> error == None && dentry.lower == None && dentry.hashing == Dropped
    ensures name != "." && name != ".." && dir.Found() == None ==> error.Some? && dentry.lower == None
    ensures name != "." && name != ".." && dir.Found().Some? ==>
      Interposed(k, dentry.lower, Followed(k, Path(parent.mnt, dir.Found().value)), luck, error)
    // the cached dentry is interposed if it is valid or cannot be invalidated
    ensures name != "." && name != ".." && dir.cached.Some? && (dir.valid > 0 || (dir.valid == 0 && !dir.invalidated)) ==>
      Interposed(k, dentry.lower, Followed(k, Path(parent.mnt, dir.cached.value)), luck, error)
    ensures name != "." && name != ".." && dir.cached.Some? && dir.valid < 0 ==>
      error == Some(Other(dir.valid)) && dentry.lower == None && dentry.hashing == Dropped
    // an invalidated dentry is never interposed: the directory is asked, as if none were cached
    ensures name != "." && name != ".." && (dir.cached == None || (dir.valid == 0 && dir.invalidated)) ==>
      match dir.direct
      case None => error == Some(dir.failure) && dentry.lower == None && dentry.hashing == Dropped
      case Some(d) => Interposed(k, dentry.lower, Followed(k, Path(parent.mnt, d)), luck, error)
  {
    if name == "." || name == ".." {
      dentry.hashing := Dropped;
      return None;
    }
    var lower;
    lower, error := FindLower(h, dir);
    if lower == None {
      dentry.hashing := Dropped;
      return error;
    }
    error := Interpose(k, h, dentry, parent.mnt, lower.value, luck, old(h.dentries), old(h.mounts));
  }

  /** `lofs_d_release` */
  method Release(h: Held, dentry: LofsDentry)
    requires dentry.lower.Some? ==> dentry.lower.value.dentry in h.dentries && dentry.lower.value.mnt in h.mounts
    modifies h, dentry
    ensures h.dentries == old(h.dentries) - old(StoredDentry(dentry))
    ensures h.mounts == old(h.mounts) - old(StoredMount(dentry))
    ensures h.locked == old(h.locked)
    ensures dentry.lower == None
  {
    if dentry.lower.Some? {
      h.Put(dentry.lower.value.dentry);
      h.PutMount(dentry.lower.value.mnt);
    }
    dentry.lower := None;
  }

  /** Whatever happens during a lookup, releasing the lofs dentry later leaves lofs with
      exactly the references and locks it had before. */
  method LookupThenRelease(k: Kernel, h: Held, name: Name, parent: Path, dir: Directory, luck: Luck)
    requires k.Valid() && !h.locked
    modifies h
    ensures h.dentries == old(h.dentries) && h.mounts == old(h.mounts) && !h.locked
  {
    var dentry := new LofsDentry();
    var _ := Lookup(k, h, dentry, name, parent, dir, luck);
    Release(h, dentry);
  }

  // ------------------------------------------------------------------ whole paths

  ghost predicate Ordinary(names: seq<Name>) {
    forall i :: 0 <= i < |names| ==> names[i] != "." && names[i] != ".."
  }

  /** The ordinary walk along the first `n` components: each is looked up in the directory
      reached so far, then every mount on it is followed. */
  ghost function Walk(k: Kernel, root: Path, names: seq<Name>, n: nat): Path
    requires k.Valid() && n <= |names|
  {
    if n == 0 then root
    else
      var dir := Walk(k, root, names, n - 1);
      Followed(k, Path(dir.mnt, k.child(dir.dentry, names[n - 1])))
  }

  /** Every dentry on the way is unmanaged and not of lofs itself. */
  ghost predicate Clear(k: Kernel, root: Path, names: seq<Name>)
    requires k.Valid()
  {
    forall n :: 0 < n <= |names| ==> Passable(k, Walk(k, root, names, n))
  }

  ghost predicate Passable(k: Kernel, p: Path) {
    !k.managed(p.dentry) && !k.ofLofs(p.dentry)
  }

  /** The lower directories answer truly: however the lookup gets there (cached, cached and
      revalidated, invalidated and looked up again), it finds the child of that name. */
  ghost predicate Truthful(k: Kernel, root: Path, names: seq<Name>, answers: nat -> Directory)
    requires k.Valid()
  {
    forall n :: 0 <= n < |names| ==> answers(n).Found() == Some(k.child(Walk(k, root, names, n).dentry, names[n]))
  }

  /** What it takes for a lookup of `next` to succeed. */
  predicate Succeeds(k: Kernel, next: Path, luck: Luck) {
    luck.memory && (k.negative(next.dentry) || luck.inode == None)
  }

  /** One component: a new lofs dentry that stands for the next path of the ordinary walk and
      holds one reference on each half of it.  The kernel drops the dentry of a lookup that
      fails. */
  method StepThroughLofs(k: Kernel, h: Held, name: Name, at: Path, dir: Directory, luck: Luck, ghost next: Path)
    returns (error: Option<Error>, found: Path)
    requires k.Valid() && !h.locked && name != "." && name != ".."
    requires dir.Found() == Some(k.child(at.dentry, name))
    requires next == Followed(k, Path(at.mnt, k.child(at.dentry, name))) && Passable(k, next)
    modifies h
    ensures !h.locked
    ensures error == None <==> Succeeds(k, next, luck)
    ensures error == None ==> found == next && h.Holds(old(h.dentries), old(h.mounts), next)
    ensures error != None ==> h.dentries == old(h.dentries) && h.mounts == old(h.mounts)
  {
    var dentry := new LofsDentry();
    error := Lookup(k, h, dentry, name, at, dir, luck);
    InterposedIsLower(k, dentry.lower, next, luck, error);
    if error != None {
      Release(h, dentry);
      return error, at;
    }
    found := dentry.lower.value;
  }

  /** The paths some lofs dentries stand for: those the ordinary walk comes through, none
      of them in lofs. */
  ghost predicate Follows(k: Kernel, root: Path, names: seq<Name>, trail: seq<Path>)
    requires k.Valid()
  {
    && |trail| <= |names|
    && forall i :: 0 <= i < |trail| ==> trail[i] == Walk(k, root, names, i + 1) && !k.ofLofs(trail[i].dentry)
  }

  lemma FollowsOn(k: Kernel, root: Path, names: seq<Name>, trail: seq<Path>, n: nat, next: Path)
    requires k.Valid() && Follows(k, root, names, trail) && n == |trail| < |names|
    requires next == Walk(k, root, names, n + 1) && !k.ofLofs(next.dentry)
    ensures Follows(k, root, names, trail + [next])
  {
  }

  function DentriesOf(trail: seq<Path>): multiset<Dentry> {
    if trail == [] then multiset{} else DentriesOf(trail[..|trail| - 1]) + multiset{trail[|trail| - 1].dentry}
  }

  function MountsOf(trail: seq<Path>): multiset<Mount> {
    if trail == [] then multiset{} else MountsOf(trail[..|trail| - 1]) + multiset{trail[|trail| - 1].mnt}
  }

  lemma OneMoreHeld(trail: seq<Path>, next: Path)
    ensures DentriesOf(trail + [next]) == DentriesOf(trail) + multiset{next.dentry}
    ensures MountsOf(trail + [next]) == MountsOf(trail) + multiset{next.mnt}
  {
    assert (trail + [next])[..|trail|] == trail;
  }

  /** The first `n` lookups of a walk succeed. */
  ghost predicate AllSucceed(k: Kernel, root: Path, names: seq<Name>, lucks: nat -> Luck, n: nat)
    requires k.Valid() && n <= |names|
  {
    forall i :: 0 <= i < n ==> Succeeds(k, Walk(k, root, names, i + 1), lucks(i))
  }

  lemma NextSucceeds(k: Kernel, root: Path, names: seq<Name>, lucks: nat -> Luck, n: nat)
    requires k.Valid() && n < |names| && AllSucceed(k, root, names, lucks, n)
    ensures AllSucceed(k, root, names, lucks, n + 1) <==> Succeeds(k, Walk(k, root, names, n + 1), lucks(n))
    ensures AllSucceed(k, root, names, lucks, |names|) ==> AllSucceed(k, root, names, lucks, n + 1)
  {
  }

  /** The references gained since `ds` and `ms` are those of the trail. */
  ghost predicate Gained(h: Held, ds: multiset<Dentry>, ms: multiset<Mount>, trail: seq<Path>)
    reads h
  {
    h.dentries == ds + DentriesOf(trail) && h.mounts == ms + MountsOf(trail)
  }

  /** The next component of a walk. */
  method WalkStep(k: Kernel, h: Held, root: Path, names: seq<Name>, n: nat, at: Path, answers: nat -> Directory,
                  lucks: nat -> Luck, ghost trail: seq<Path>, ghost ds: multiset<Dentry>, ghost ms: multiset<Mount>)
    returns (error: Option<Error>, next: Path)
    requires k.Valid() && !h.locked && Ordinary(names) && Clear(k, root, names) && Truthful(k, root, names, answers)
    requires n == |trail| < |names| && at == Walk(k, root, names, n)
    requires Follows(k, root, names, trail) && AllSucceed(k, root, names, lucks, n) && Gained(h, ds, ms, trail)
    modifies h
    ensures !h.locked
    ensures error == None <==> AllSucceed(k, root, names, lucks, n + 1)
    ensures error == None ==> next == Walk(k, root, names, n + 1)
    ensures error == None ==> Follows(k, root, names, trail + [next]) && Gained(h, ds, ms, trail + [next])
    ensures error != None ==> Gained(h, ds, ms, trail) && !AllSucceed(k, root, names, lucks, |names|)
  {
    ghost var walked := Walk(k, root, names, n + 1);
    assert Passable(k, walked);
    NextSucceeds(k, root, names, lucks, n);
    error, next := StepThroughLofs(k, h, names[n], at, answers(n), lucks(n), walked);
    if error == None {
      FollowsOn(k, root, names, trail, n, next);
      OneMoreHeld(trail, next);
    }
  }

  /** Walking a path through lofs, dentry by dentry, comes through the lower paths the
      ordinary walk comes through, and ends where that ends, unless memory or an inode cannot
      be had on the way.  The references gained are exactly those of the paths it came
      through. */
  method WalkThroughLofs(k: Kernel, h: Held, root: Path, names: seq<Name>, answers: nat -> Directory, lucks: nat -> Luck)
    returns (error: Option<Error>, end: Path, trail: seq<Path>)
    requires k.Valid() && !h.locked && Ordinary(names) && Clear(k, root, names) && Truthful(k, root, names, answers)
    modifies h
    ensures !h.locked && Follows(k, root, names, trail)
    ensures error == None <==> AllSucceed(k, root, names, lucks, |names|)
    ensures error == None ==> |trail| == |names| && end == Walk(k, root, names, |names|)
    ensures Gained(h, old(h.dentries), old(h.mounts), trail)
  {
    error, end, trail := None, root, [];
    var n := 0;
    while n < |names|
      invariant !h.locked && Follows(k, root, names, trail) && error == None
      invariant n == |trail| <= |names| && end == Walk(k, root, names, n)
      invariant AllSucceed(k, root, names, lucks, n)
      invariant Gained(h, old(h.dentries), old(h.mounts), trail)
    {
      var next;
      error, next := WalkStep(k, h, root, names, n, end, answers, lucks, trail, old(h.dentries), old(h.mounts));
      if error != None {
        return;
      }
      end, trail := next, trail + [next];
      n := n + 1;
    }
  }
}
