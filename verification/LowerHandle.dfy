/** The one open file a lofs inode keeps on its lower file: opened by the first opener,
    replaced when a later one needs more access, closed when the inode is destroyed. */
module LowerHandle {
  import opened Options

  /** FMODE_READ, FMODE_WRITE, and whatever other bits an opener may ask for. */
  datatype Bit = Readable | Writable | Further(n: nat)

  type Mode = set<Bit>

  /** The mode of the file `lofs_privileged_open` opens for a request: read access always,
      write access if it was asked for, and the bits the kernel sets in every file it opens
      (for seeking and positioned access, say). */
  function Granted(mode: Mode, own: Mode): Mode {
    own + if Writable in mode then {Readable, Writable} else {Readable}
  }

  /** Nothing is asked for but reading, writing, and what every file has. */
  predicate Usual(mode: Mode, own: Mode) {
    mode <= {Readable, Writable} + own
  }

  predicate FurtherOnly(own: Mode) {
    Readable !in own && Writable !in own
  }

  class LofsInode {
    /** The bits the kernel sets by itself. */
    const own: Mode
    /** Mode of the open lower file, if there is one. */
    var lowerFile: Option<Mode>
    /** Successful opens and closes of the lower file so far. */
    var opens: nat
    var closes: nat
    /** References on the lower dentry and mount that belong to open lower files. */
    var paths: nat

    /** What is kept is what was opened and not closed, with one reference each. */
    ghost predicate Valid()
      reads this
    {
      && FurtherOnly(own)
      && opens == closes + (if lowerFile.Some? then 1 else 0)
      && paths == if lowerFile.Some? then 1 else 0
    }

    /** `lofs_alloc_inode` */
    constructor (own: Mode)
      requires FurtherOnly(own)
      ensures Valid() && lowerFile == None && opens == 0 && this.own == own
    {
      this.own, lowerFile, opens, closes, paths := own, None, 0, 0, 0;
    }

    /** `lofs_privileged_open`: the references taken for it are the kernel's to give back
        if the open fails. */
    method PrivilegedOpen(mode: Mode, succeeds: bool) returns (file: Option<Mode>)
      modifies this`opens, this`paths
      ensures file == if succeeds then Some(Granted(mode, own)) else None
      ensures file.Some? ==>
        forall b :: b in file.value <==> b in own || b == Readable || (b == Writable && Writable in mode)
      ensures opens == old(opens) + (if succeeds then 1 else 0)
      ensures paths == old(paths) + (if succeeds then 1 else 0)
    {
      paths := paths + 1;
      var write := Writable in mode;
      if succeeds {
        file := Some(own + if write then {Readable, Writable} else {Readable});
        opens := opens + 1;
      } else {
        file := None;
        paths := paths - 1;
      }
    }

    /** `fput` of the lower file, with the references that belong to it. */
    method Close()
      requires lowerFile.Some? && paths > 0
      modifies this
      ensures lowerFile == None && opens == old(opens) && closes == old(closes) + 1 && paths == old(paths) - 1
    {
      lowerFile := None;
      closes := closes + 1;
      paths := paths - 1;
    }

    /** `lofs_init_persistent_file` */
    method InitPersistentFile(mode: Mode, succeeds: bool) returns (ok: bool)
      requires Valid()
      modifies this
      ensures Valid()
      ensures lowerFile == if old(Enough(mode)) || !succeeds then old(lowerFile) else Some(Granted(mode, own))
      ensures ok <==> old(Enough(mode)) || succeeds
      ensures opens == old(opens) + (if !old(Enough(mode)) && succeeds then 1 else 0)
    {
      ok := true;
      if lowerFile == None || lowerFile.value * mode != mode {
        var file := PrivilegedOpen(mode, succeeds);
        if file == None {
          ok := false;
        } else {
          if lowerFile.Some? {
            Close();
          }
          lowerFile := file;
        }
      }
      assert lowerFile.Some? ==> lowerFile.value * mode == mode || !succeeds || lowerFile == Some(Granted(mode, own));
      assert old(Enough(mode)) <==> old(lowerFile).Some? && old(lowerFile).value * mode == mode;
    }

    /** The kept file has all the access a request asks for. */
    ghost predicate Enough(mode: Mode)
      reads this
    {
      Serves(lowerFile, mode)
    }

    /** `lofs_destroy_inode` */
    method Destroy()
      requires Valid()
      modifies this
      ensures Valid() && lowerFile == None && opens == old(opens) && opens == closes && paths == 0
    {
      if lowerFile.Some? {
        Close();
      }
    }

    /** Any run of opens, each of which may fail, and then the destruction: afterwards every
        lower open has been closed.  `kept[i]` is the file that is kept after request `i`:
        the one before it if the request fails, and one that has no less access and all
        that is asked for if it succeeds, as long as nobody asks for anything unusual. */
    method Life(requests: seq<(Mode, bool)>) returns (served: seq<bool>, kept: seq<Option<Mode>>)
      requires Valid() && lowerFile == None && opens == 0
      modifies this
      ensures opens == closes && paths == 0 && lowerFile == None
      ensures |served| == |kept| == |requests|
      ensures forall i :: 0 <= i < |requests| && !served[i] ==> !requests[i].1 && kept[i] == Before(kept, i)
      ensures (forall i :: 0 <= i < |requests| ==> Usual(requests[i].0, own)) ==>
        && opens <= 2
        && forall i :: 0 <= i < |requests| ==> NoLess(Before(kept, i), kept[i]) && (served[i] ==> Serves(kept[i], requests[i].0))
    {
      served, kept := [], [];
      var n := 0;
      while n < |requests|
        invariant n <= |requests| && |served| == |kept| == n
        invariant Valid() && lowerFile == Before(kept, n)
        invariant forall i :: 0 <= i < n && !served[i] ==> !requests[i].1 && kept[i] == Before(kept, i)
        invariant (forall i :: 0 <= i < n ==> Usual(requests[i].0, own)) ==>
          && Bounded(lowerFile, opens, own)
          && forall i :: 0 <= i < n ==> NoLess(Before(kept, i), kept[i]) && (served[i] ==> Serves(kept[i], requests[i].0))
      {
        ghost var had, soFar := lowerFile, opens;
        var ok := InitPersistentFile(requests[n].0, requests[n].1);
        if Usual(requests[n].0, own) && Bounded(had, soFar, own) {
          Upgrade(had, soFar, requests[n].0, requests[n].1, lowerFile, opens, own);
        }
        served, kept := served + [ok], kept + [lowerFile];
        n := n + 1;
      }
      Destroy();
    }
  }

  /** What was kept before request `i`. */
  function Before(kept: seq<Option<Mode>>, i: nat): Option<Mode>
    requires i <= |kept|
  {
    if i == 0 then None else kept[i - 1]
  }

  predicate Serves(file: Option<Mode>, mode: Mode) {
    file.Some? && mode <= file.value
  }

  predicate NoLess(had: Option<Mode>, has: Option<Mode>) {
    had.Some? ==> has.Some? && had.value <= has.value
  }

  /** A file for reading has been opened once, one for writing at most twice. */
  predicate Bounded(file: Option<Mode>, opens: nat, own: Mode) {
    match file
    case None => opens == 0
    case Some(mode) => (mode == own + {Readable} && opens == 1) || (mode == own + {Readable, Writable} && 1 <= opens <= 2)
  }

  lemma Upgrade(had: Option<Mode>, soFar: nat, mode: Mode, succeeds: bool, has: Option<Mode>, opens: nat, own: Mode)
    requires FurtherOnly(own) && Usual(mode, own) && Bounded(had, soFar, own)
    requires has == if Serves(had, mode) || !succeeds then had else Some(Granted(mode, own))
    requires opens == soFar + if !Serves(had, mode) && succeeds then 1 else 0
    ensures Bounded(has, opens, own) && NoLess(had, has)
    ensures Serves(had, mode) || succeeds ==> Serves(has, mode)
  {
    GrantedIsEnough(mode, own);
    if had.Some? && !Serves(had, mode) {
      AccessNeverShrinks(had.value, mode, own);
    }
  }

  /** A request is satisfied by the file opened for it exactly when it asks for nothing but
      reading, writing and what every file has; otherwise the file is closed and opened again
      by every such request. */
  lemma GrantedIsEnough(mode: Mode, own: Mode)
    ensures mode <= Granted(mode, own) <==> Usual(mode, own)
  {
    if !Usual(mode, own) {
      var bit :| bit in mode && bit !in {Readable, Writable} + own;
      assert bit !in Granted(mode, own);
    } else {
      forall bit | bit in mode
        ensures bit in Granted(mode, own)
      {
        assert bit in {Readable, Writable} + own;
      }
    }
  }

  /** A file is replaced only when it lacks something that is asked for.  The replacement
      keeps all the access it had exactly when it was read-only or writing is asked for
      again; that always holds if nothing unusual is asked for. */
  lemma AccessNeverShrinks(had: Mode, mode: Mode, own: Mode)
    requires FurtherOnly(own) && (had == own + {Readable} || had == own + {Readable, Writable})
    requires !(mode <= had)
    ensures had <= Granted(mode, own) <==> had == own + {Readable} || Writable in mode
    ensures Usual(mode, own) ==> had <= Granted(mode, own)
  {
    if Usual(mode, own) {
      var bit :| bit in mode && bit !in had;
      assert bit in {Readable, Writable} + own;
    }
    assert Writable in own + {Readable, Writable} && Writable !in own + {Readable};
    assert Writable in mode <==> Writable in Granted(mode, own);
  }

  /** After all, a handle for reading and writing can be demoted: by a request for reading and
      something else. */
  lemma Demoted(own: Mode, had: Mode, mode: Mode, n: nat)
    requires FurtherOnly(own) && Further(n) !in own
    requires had == Granted({Readable, Writable}, own) && mode == {Readable, Further(n)}
    ensures !(mode <= had) && Writable in had && Writable !in Granted(mode, own)
  {
    assert Further(n) in mode && Further(n) !in had;
  }
}
