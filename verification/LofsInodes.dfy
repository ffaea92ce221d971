/** The inodes of lofs: one per lower inode and lofs mount, each holding one reference on
    its lower inode. */
module LofsInodes {
  import opened Options

  type Lower = nat
  type SuperBlock = nat
  type InodeId = nat

  datatype Error = Stale | Denied

  /** A lofs inode in the kernel's hash.  `users` counts the references on it; once it is
      being freed it is only there until its eviction is over. */
  datatype Inode = Inode(sb: SuperBlock, lower: Lower, users: nat, freeing: bool)

  /** `lofs_inode_test`, on an inode of the right superblock. */
  predicate Matches(i: Inode, lower: Lower, sb: SuperBlock) {
    i.sb == sb && i.lower == lower
  }

  /** How often a lower inode is referred to by the inodes in a table. */
  ghost function LowersOf(table: map<InodeId, Inode>): multiset<Lower> {
    if table == map[] then multiset{}
    else
      var i :| i in table;
      multiset{table[i].lower} + LowersOf(table - {i})
  }

  lemma {:induction false} LowersWithout(table: map<InodeId, Inode>, i: InodeId)
    requires i in table
    ensures LowersOf(table) == multiset{table[i].lower} + LowersOf(table - {i})
    decreases |table|
  {
    var x :| x in table && LowersOf(table) == multiset{table[x].lower} + LowersOf(table - {x});
    if x != i {
      var rest := table - {x} - {i};
      assert rest == table - {i} - {x};
      LowersWithout(table - {x}, i);
      LowersWithout(table - {i}, x);
      assert LowersOf(table - {x}) == multiset{table[i].lower} + LowersOf(rest);
      assert LowersOf(table - {i}) == multiset{table[x].lower} + LowersOf(rest);
    }
  }

  lemma LowersChanged(table: map<InodeId, Inode>, i: InodeId, inode: Inode)
    requires i in table && table[i].lower == inode.lower
    ensures LowersOf(table[i := inode]) == LowersOf(table)
  {
    LowersWithout(table[i := inode], i);
    LowersWithout(table, i);
    assert table[i := inode] - {i} == table - {i};
  }

  lemma LowersAdded(table: map<InodeId, Inode>, i: InodeId, inode: Inode)
    requires i !in table
    ensures LowersOf(table[i := inode]) == LowersOf(table) + multiset{inode.lower}
  {
    LowersWithout(table[i := inode], i);
    assert table[i := inode] - {i} == table;
  }

  lemma LowersWith(table: map<InodeId, Inode>, i: InodeId, inode: Inode)
    requires i in table ==> table[i].lower == inode.lower
    ensures LowersOf(table[i := inode]) ==
      if i in table then LowersOf(table) else LowersOf(table) + multiset{inode.lower}
  {
    if i in table {
      LowersChanged(table, i, inode);
    } else {
      LowersAdded(table, i, inode);
    }
  }

  /** At most one inode that is not being freed per lower inode and superblock, and users
      only on such inodes. */
  ghost predicate Unique(table: map<InodeId, Inode>) {
    && (forall i, j :: i in table && j in table && i != j && Matches(table[i], table[j].lower, table[j].sb) ==>
          table[i].freeing || table[j].freeing)
    && (forall i :: i in table && table[i].freeing ==> table[i].users == 0)
  }

  /** The table has an inode for this lower inode in this superblock. */
  ghost predicate HasMatch(table: map<InodeId, Inode>, lower: Lower, sb: SuperBlock) {
    exists i :: i in table && Matches(table[i], lower, sb)
  }

  function UsersIn(table: map<InodeId, Inode>, i: InodeId): nat {
    if i in table then table[i].users else 0
  }

  /** A table in which one more user has the inode `i` for this lower inode: an old one if
      there is one, a new one otherwise. */
  ghost predicate Acquired(table: map<InodeId, Inode>, i: InodeId, lower: Lower, sb: SuperBlock, table': map<InodeId, Inode>) {
    && table' == table[i := Inode(sb, lower, UsersIn(table, i) + 1, false)]
    && (i in table <==> HasMatch(table, lower, sb))
    && (i in table ==> Matches(table[i], lower, sb) && !table[i].freeing)
  }

  lemma AcquiredKeeps(table: map<InodeId, Inode>, i: InodeId, lower: Lower, sb: SuperBlock, table': map<InodeId, Inode>)
    requires Unique(table) && Acquired(table, i, lower, sb, table')
    ensures Unique(table')
    ensures LowersOf(table') == if i in table then LowersOf(table) else LowersOf(table) + multiset{lower}
  {
    LowersWith(table, i, table'[i]);
    forall j, k | j in table' && k in table' && j != k && Matches(table'[j], table'[k].lower, table'[k].sb)
      ensures table'[j].freeing || table'[k].freeing
    {
      if j == i && i !in table {
        assert Matches(table[k], lower, sb);
      }
    }
  }

  /** The inodes for this lower inode that are being freed. */
  function Leaving(table: map<InodeId, Inode>, lower: Lower, sb: SuperBlock): set<InodeId> {
    set i | i in table && Matches(table[i], lower, sb) && table[i].freeing
  }

  /** What the table is once they are gone. */
  function Settled(table: map<InodeId, Inode>, lower: Lower, sb: SuperBlock): map<InodeId, Inode> {
    table - Leaving(table, lower, sb)
  }

  /** Exactly the inodes for this lower inode that are being freed are gone; all others are
      there, as they were. */
  lemma SettledExactly(table: map<InodeId, Inode>, lower: Lower, sb: SuperBlock, i: InodeId)
    ensures i in Settled(table, lower, sb) <==>
      i in table && !(table[i].sb == sb && table[i].lower == lower && table[i].freeing)
    ensures i in Settled(table, lower, sb) ==> Settled(table, lower, sb)[i] == table[i]
  {
    assert i in Leaving(table, lower, sb) <==> i in table && Matches(table[i], lower, sb) && table[i].freeing;
  }

  lemma SettledWithout(table: map<InodeId, Inode>, lower: Lower, sb: SuperBlock, i: InodeId)
    requires i in Leaving(table, lower, sb)
    ensures Settled(table - {i}, lower, sb) == Settled(table, lower, sb)
    ensures |table - {i}| < |table|
  {
    assert Leaving(table - {i}, lower, sb) == Leaving(table, lower, sb) - {i};
    assert (table - {i}).Keys == table.Keys - {i};
  }

  /** What can happen to the inodes of lofs. */
  datatype InodeOp =
    | Get(lower: Lower, sb: SuperBlock, alive: bool, memory: bool, unused: InodeId)
    | Put(i: InodeId)
    | Evicted(i: InodeId)

  class InodeCache {
    var table: map<InodeId, Inode>
    /** References lofs holds on lower inodes. */
    var lowerRefs: multiset<Lower>

    /** No two live inodes for the same thing, and one reference for each inode there is,
        besides some that are being handed over. */
    ghost predicate Holds(extra: multiset<Lower>)
      reads this
    {
      && Unique(table)
      && lowerRefs == LowersOf(table) + extra
    }

    ghost predicate Valid()
      reads this
    {
      Holds(multiset{})
    }

    constructor ()
      ensures Valid() && table == map[]
    {
      table, lowerRefs := map[], multiset{};
    }

    /** `igrab`: fails if the lower inode is about to be freed. */
    method Grab(lower: Lower, alive: bool) returns (ok: bool)
      modifies this`lowerRefs
      ensures ok == alive
      ensures lowerRefs == if ok then old(lowerRefs) + multiset{lower} else old(lowerRefs)
    {
      ok := alive;
      if ok {
        lowerRefs := lowerRefs + multiset{lower};
      }
    }

    method PutLower(lower: Lower)
      requires lower in lowerRefs
      modifies this`lowerRefs
      ensures lowerRefs == old(lowerRefs) - multiset{lower}
    {
      lowerRefs := lowerRefs - multiset{lower};
    }

    /** The kernel evicts an inode: `lofs_clear_inode` drops the lower inode, then the inode
        is gone. */
    method Evict(i: InodeId, ghost extra: multiset<Lower>)
      requires Holds(extra) && i in table && table[i].freeing
      modifies this
      ensures Holds(extra)
      ensures table == old(table) - {i} && lowerRefs == old(lowerRefs) - multiset{old(table)[i].lower}
    {
      LowersWithout(table, i);
      PutLower(table[i].lower);
      table := table - {i};
    }

    /** Waiting until no inode for this lower inode is being freed any more. */
    method Wait(lower: Lower, sb: SuperBlock, ghost extra: multiset<Lower>)
      requires Holds(extra)
      modifies this
      ensures Holds(extra) && table == Settled(old(table), lower, sb)
      decreases |table|
    {
      var leaving := Leaving(table, lower, sb);
      if leaving != {} {
        var i :| i in leaving;
        SettledWithout(table, lower, sb, i);
        Evict(i, extra);
        Wait(lower, sb, extra);
      } else {
        assert table - {} == table;
      }
    }

    /** `iget5_locked` with `lofs_inode_test` and `lofs_inode_set`.  It waits until no match
        is being freed, takes the match there is, or sets up a new inode if memory allows. */
    method Iget(lower: Lower, sb: SuperBlock, unused: InodeId, memory: bool, ghost extra: multiset<Lower>)
      returns (found: Option<InodeId>, isNew: bool)
      requires Holds(extra) && unused !in table
      modifies this
      ensures lowerRefs == LowersOf(Settled(old(table), lower, sb)) + extra
      ensures var was := Settled(old(table), lower, sb);
        && Unique(was)
        && (found.Some? <==> HasMatch(was, lower, sb) || memory)
        && (found.Some? ==> Acquired(was, found.value, lower, sb, table) && (isNew <==> !HasMatch(was, lower, sb)))
        && (found == None ==> table == was && !isNew)
    {
      Wait(lower, sb, extra);
      if i :| i in table && Matches(table[i], lower, sb) {
        table := table[i := table[i].(users := table[i].users + 1)];
        return Some(i), false;
      }
      if !memory {
        return None, false;
      }
      table := table[unused := Inode(sb, lower, 1, false)];
      return Some(unused), true;
    }

    /** The rest of `__lofs_get_inode`, with a reference on the lower inode to store or to
        give back. */
    method InodeForGrabbed(lower: Lower, sb: SuperBlock, unused: InodeId, memory: bool) returns (inode: Option<InodeId>)
      requires Holds(multiset{lower}) && unused !in table
      modifies this
      ensures Valid()
      ensures var was := Settled(old(table), lower, sb);
        && (inode.Some? <==> HasMatch(was, lower, sb) || memory)
        && (inode.Some? ==> Acquired(was, inode.value, lower, sb, table))
        && (inode == None ==> table == was)
    {
      ghost var was := Settled(table, lower, sb);
      var isNew;
      inode, isNew := Iget(lower, sb, unused, memory, multiset{lower});
      if inode.Some? {
        AcquiredKeeps(was, inode.value, lower, sb, table);
      }
      if !isNew {
        PutLower(lower);
      }
    }

    /** `__lofs_get_inode` */
    method GetInode(lower: Lower, sb: SuperBlock, alive: bool, unused: InodeId, memory: bool)
      returns (inode: Option<InodeId>, error: Option<Error>)
      requires Valid() && unused !in table
      modifies this
      ensures Valid()
      ensures error == if !alive then Some(Stale) else if inode == None then Some(Denied) else None
      ensures !alive ==> inode == None && table == old(table)
      ensures var was := Settled(old(table), lower, sb);
        alive ==>
          && (inode.Some? <==> HasMatch(was, lower, sb) || memory)
          && (inode.Some? ==> Acquired(was, inode.value, lower, sb, table))
          && (inode == None ==> table == was)
    {
      var ok := Grab(lower, alive);
      if !ok {
        return None, Some(Stale);
      }
      inode := InodeForGrabbed(lower, sb, unused, memory);
      error := if inode == None then Some(Denied) else None;
    }

    /** A user of a lofs inode goes away; the last one starts its eviction. */
    method Iput(i: InodeId)
      requires Valid() && i in table && table[i].users > 0
      modifies this`table
      ensures Valid()
      ensures var was := old(table[i]);
        table == old(table)[i := was.(users := was.users - 1, freeing := was.users == 1)]
    {
      var was := table[i];
      var now := was.(users := was.users - 1, freeing := was.users == 1);
      LowersWith(table, i, now);
      table := table[i := now];
    }

    /** Any run of acquisitions, which may fail, releases and evictions.  Afterwards lofs holds
        one reference on a lower inode per lofs inode for it; no more than one, if there is one
        mount and nothing is being freed, and none at all if no inode is left. */
    method Run(ops: seq<InodeOp>)
      requires Valid()
      modifies this
      ensures Valid()
      ensures forall sb, lower :: OneMount(table, sb) ==>
        lowerRefs[lower] == if HasMatch(table, lower, sb) then 1 else 0
      ensures table == map[] ==> lowerRefs == multiset{}
    {
      for k := 0 to |ops|
        invariant Valid()
      {
        match ops[k] {
          case Get(lower, sb, alive, memory, unused) =>
            if unused !in table {
              var _, _ := GetInode(lower, sb, alive, unused, memory);
            }
          case Put(i) =>
            if i in table && table[i].users > 0 {
              Iput(i);
            }
          case Evicted(i) =>
            if i in table && table[i].freeing {
              Evict(i, multiset{});
            }
        }
      }
      forall sb, lower | OneMount(table, sb)
        ensures lowerRefs[lower] == if HasMatch(table, lower, sb) then 1 else 0
      {
        AtMostOneReference(table, sb, lower);
      }
    }
  }

  /** All inodes are of one mount, and none is being freed. */
  ghost predicate OneMount(table: map<InodeId, Inode>, sb: SuperBlock) {
    forall i :: i in table ==> table[i].sb == sb && !table[i].freeing
  }

  /** With one mount and no inode being freed, lofs holds one reference on each lower inode it
      has an inode for and none on any other. */
  lemma {:induction false} AtMostOneReference(table: map<InodeId, Inode>, sb: SuperBlock, lower: Lower)
    requires Unique(table) && OneMount(table, sb)
    ensures LowersOf(table)[lower] == if HasMatch(table, lower, sb) then 1 else 0
    decreases |table|
  {
    if table != map[] {
      var x :| x in table && LowersOf(table) == multiset{table[x].lower} + LowersOf(table - {x});
      AtMostOneReference(table - {x}, sb, lower);
      if table[x].lower == lower {
        assert Matches(table[x], lower, sb);
        assert forall i :: i in table - {x} ==> !Matches(table[i], lower, sb);
      } else if HasMatch(table, lower, sb) {
        var i :| i in table && Matches(table[i], lower, sb);
        assert i in table - {x};
      }
    }
  }
}
