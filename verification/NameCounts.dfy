/** Names are conserved: every dentry is accounted for by a link count, and `coffer check` finds nothing. */
module NameCounts {
  import opened Common
  import opened Schema
  import opened Tree
  import opened Calls
  import opened Invariant
  import opened Runs

  // --- find_inconsistencies -------------------------------------------------------

  /** The two counts of `find_inconsistencies`: dangling names, and inodes without a name. */
  function Inconsistencies(inodes: Inodes, dentries: Dentries): (nat, nat) {
    (|set k | k in dentries && dentries[k] !in inodes|,
     |set ino | ino in inodes && ino != ROOT_INO && NamesOf(dentries, ino) == {}|)
  }

  lemma {:induction false} NamedIffNames(dentries: Dentries, ino: Ino)
    ensures Named(dentries, ino) <==> NamesOf(dentries, ino) != {}
  {
    if Named(dentries, ino) {
      var k :| k in dentries && dentries[k] == ino;
      assert k in NamesOf(dentries, ino);
    }
    if k :| k in NamesOf(dentries, ino) {
      assert k in dentries && dentries[k] == ino;
    }
  }

  /** The counts are both zero exactly when every name leads somewhere and every inode has one. */
  lemma {:induction false} ConsistentIff(inodes: Inodes, dentries: Dentries)
    ensures Inconsistencies(inodes, dentries) == (0, 0) <==>
            (forall k <- dentries :: dentries[k] in inodes) && AllNamed(inodes, dentries)
  {
    var dangling := set k | k in dentries && dentries[k] !in inodes;
    var nameless := set ino | ino in inodes && ino != ROOT_INO && NamesOf(dentries, ino) == {};
    assert dangling == {} <==> forall k <- dentries :: dentries[k] in inodes by {
      if k :| k in dentries && dentries[k] !in inodes { assert k in dangling; }
    }
    assert nameless == {} <==> AllNamed(inodes, dentries) by {
      forall ino <- inodes ensures Named(dentries, ino) <==> NamesOf(dentries, ino) != {} {
        NamedIffNames(dentries, ino);
      }
      if ino :| ino in inodes && ino != ROOT_INO && !Named(dentries, ino) { assert ino in nameless; }
      if ino :| ino in nameless { assert !Named(dentries, ino); }
    }
  }

  /** If the row of an inode were lost, the first count would be the number of its names. */
  lemma {:induction false} DanglingCounted(inodes: Inodes, dentries: Dentries, ino: Ino)
    requires NamesOk(inodes, dentries) && AllNamed(inodes, dentries) && ino in inodes && ino != ROOT_INO
    ensures Inconsistencies(inodes - {ino}, dentries) == (|set k | k in dentries && dentries[k] == ino|, 0)
  {
    var left := inodes - {ino};
    assert (set k | k in dentries && dentries[k] !in left) == (set k | k in dentries && dentries[k] == ino);
    forall i <- left | i != ROOT_INO ensures NamesOf(dentries, i) != {} { NamedIffNames(dentries, i); }
    assert (set i | i in left && i != ROOT_INO && NamesOf(dentries, i) == {}) == {};
  }

  /** If the names of an inode were lost, the second count would be one. */
  lemma {:induction false} NamelessCounted(inodes: Inodes, dentries: Dentries, ino: Ino)
    requires NamesOk(inodes, dentries) && AllNamed(inodes, dentries) && ino in inodes && ino != ROOT_INO
    ensures Inconsistencies(inodes, map k | k in dentries && dentries[k] != ino :: dentries[k]) == (0, 1)
  {
    var left := map k | k in dentries && dentries[k] != ino :: dentries[k];
    assert (set k | k in left && left[k] !in inodes) == {};
    forall i <- inodes | i != ROOT_INO && i != ino ensures NamesOf(left, i) != {} {
      NamedIffNames(dentries, i);
      var k :| k in dentries && dentries[k] == i;
      assert k in NamesOf(left, i);
    }
    assert NamesOf(left, ino) == {};
    assert (set i | i in inodes && i != ROOT_INO && NamesOf(left, i) == {}) == {ino};
  }

  // --- link counts ------------------------------------------------------------------

  ghost function CountOf(dentries: Dentries): Ino -> nat {
    ino => |NamesOf(dentries, ino)|
  }

  /** The link count that `stat` answers. */
  ghost function Reported(inodes: Inodes, dentries: Dentries): Ino -> nat {
    ino => if ino in inodes then ToAttr(Tables(inodes, dentries, map[], map[], 0), ino).nlink else 0
  }

  function Dirs(inodes: Inodes): set<Ino> {
    set ino | ino in inodes && inodes[ino].kind.Dir?
  }

  function NonDirs(inodes: Inodes): set<Ino> {
    set ino | ino in inodes && !inodes[ino].kind.Dir?
  }

  lemma {:induction false} CountByInode(dentries: Dentries, s: set<Ino>)
    ensures |set k | k in dentries && dentries[k] in s| == SumOver(s, CountOf(dentries))
    decreases s
  {
    var all := set k | k in dentries && dentries[k] in s;
    if s == {} {
      assert all == {};
    } else {
      var x :| x in s;
      var rest := set k | k in dentries && dentries[k] in s - {x};
      assert all == NamesOf(dentries, x) + rest && NamesOf(dentries, x) !! rest;
      CountByInode(dentries, s - {x});
      SumRemove(s, CountOf(dentries), x);
    }
  }

  lemma {:induction false} SumSplit(a: set<Ino>, b: set<Ino>, f: Ino -> nat)
    requires a !! b
    ensures SumOver(a + b, f) == SumOver(a, f) + SumOver(b, f)
    decreases a
  {
    if a == {} {
      assert a + b == b;
    } else {
      var x :| x in a;
      assert a + b - {x} == (a - {x}) + b;
      SumRemove(a + b, f, x);
      SumRemove(a, f, x);
      SumSplit(a - {x}, b, f);
    }
  }

  lemma {:induction false} SumOnes(s: set<Ino>, f: Ino -> nat)
    requires forall x <- s :: f(x) == 1
    ensures SumOver(s, f) == |s|
    decreases s
  {
    if s == {} {
    } else {
      var x :| x in s;
      SumRemove(s, f, x);
      SumOnes(s - {x}, f);
    }
  }

  lemma {:induction false} SubsetCount(dentries: Dentries, ino: Ino)
    ensures |NamesOf(dentries, ino)| <= |dentries|
  {
    assert NamesOf(dentries, ino) <= dentries.Keys;
    SubsetSize(NamesOf(dentries, ino), dentries.Keys);
    assert |dentries| == |dentries.Keys|;
  }

  lemma {:induction false} SubsetSize(a: set<DentryKey>, b: set<DentryKey>)
    requires a <= b
    ensures |a| <= |b|
  {
    assert b == a + (b - a);
  }

  lemma {:induction false} DirNames(inodes: Inodes, dentries: Dentries)
    requires TreeInv(inodes, dentries)
    ensures SumOver(Dirs(inodes), CountOf(dentries)) == |Dirs(inodes)| - 1
  {
    assert IsDir(inodes, ROOT_INO);
    SumRemove(Dirs(inodes), CountOf(dentries), ROOT_INO);
    OneParent(inodes, dentries, ROOT_INO);
    forall dir <- Dirs(inodes) - {ROOT_INO} ensures CountOf(dentries)(dir) == 1 {
      OneParent(inodes, dentries, dir);
    }
    SumOnes(Dirs(inodes) - {ROOT_INO}, CountOf(dentries));
  }

  /** What is nowhere greater has no greater sum, and the same sum only if it is the same everywhere. */
  lemma {:induction false} SumAtMost(s: set<Ino>, f: Ino -> nat, g: Ino -> nat)
    requires forall x <- s :: f(x) <= g(x)
    ensures SumOver(s, f) <= SumOver(s, g)
    ensures SumOver(s, f) == SumOver(s, g) <==> forall x <- s :: f(x) == g(x)
    decreases s
  {
    if s == {} {
    } else {
      var y :| y in s;
      SumRemove(s, f, y);
      SumRemove(s, g, y);
      SumAtMost(s - {y}, f, g);
      assert forall x <- s :: x == y || x in s - {y};
    }
  }

  /** No link count is cut to 32 bits. */
  ghost predicate CountsFit(inodes: Inodes, dentries: Dentries) {
    forall ino <- NonDirs(inodes) :: |NamesOf(dentries, ino)| < TWO_TO_THE_32
  }

  lemma {:induction false} CutOrNot(n: nat)
    ensures n % 0x1_0000_0000 <= n && (n % 0x1_0000_0000 == n <==> n < 0x1_0000_0000)
  {
  }

  lemma {:induction false} LinksDescribed(t: Tables, ino: Ino, attr: FileAttr)
    requires Describes(attr, t, ino) && !t.inodes[ino].kind.Dir?
    ensures attr.nlink == |NamesOf(t.dentries, ino)| % 0x1_0000_0000
  {
    assert NamesOf(t.dentries, ino) == set k | k in t.dentries && t.dentries[k] == ino;
  }

  lemma {:induction false} ReportedAt(inodes: Inodes, dentries: Dentries, ino: Ino)
    requires ino in NonDirs(inodes)
    ensures Reported(inodes, dentries)(ino) <= CountOf(dentries)(ino)
    ensures Reported(inodes, dentries)(ino) == CountOf(dentries)(ino) <==> |NamesOf(dentries, ino)| < TWO_TO_THE_32
  {
    hide ToAttr, Describes, NamesOf;
    var t := Tables(inodes, dentries, map[], map[], 0);
    AttrDescribes(t, ino);
    LinksDescribed(t, ino, ToAttr(t, ino));
    CutOrNot(|NamesOf(dentries, ino)|);
  }

  /** What `stat` reports adds up to the number of names exactly when every single count fits into 32 bits. */
  lemma {:induction false} ReportedSum(inodes: Inodes, dentries: Dentries)
    ensures SumOver(NonDirs(inodes), Reported(inodes, dentries)) == SumOver(NonDirs(inodes), CountOf(dentries))
            <==> CountsFit(inodes, dentries)
  {
    hide NamesOf, Reported, CountOf, NonDirs, SumOver;
    var f, g := Reported(inodes, dentries), CountOf(dentries);
    forall ino <- NonDirs(inodes)
      ensures f(ino) <= g(ino) && (f(ino) == g(ino) <==> |NamesOf(dentries, ino)| < TWO_TO_THE_32)
    {
      ReportedAt(inodes, dentries, ino);
    }
    SumAtMost(NonDirs(inodes), f, g);
  }

  /** As many names as links to files, plus one for every directory but the root; in the counts that are
      reported exactly when each of them fits into 32 bits. */
  lemma {:induction false} NamesConserved(inodes: Inodes, dentries: Dentries)
    requires TreeInv(inodes, dentries)
    ensures |dentries| == SumOver(NonDirs(inodes), CountOf(dentries)) + |Dirs(inodes)| - 1
    ensures |dentries| == SumOver(NonDirs(inodes), Reported(inodes, dentries)) + |Dirs(inodes)| - 1
            <==> CountsFit(inodes, dentries)
  {
    assert (set k | k in dentries && dentries[k] in inodes.Keys) == dentries.Keys;
    hide TreeInv, CountOf, Reported, SumOver, CountsFit;
    CountByInode(dentries, inodes.Keys);
    assert inodes.Keys == Dirs(inodes) + NonDirs(inodes);
    SumSplit(Dirs(inodes), NonDirs(inodes), CountOf(dentries));
    DirNames(inodes, dentries);
    ReportedSum(inodes, dentries);
  }

  /** It is enough that there are fewer names than that in all. */
  lemma {:induction false} FewNamesFit(inodes: Inodes, dentries: Dentries)
    requires |dentries| < TWO_TO_THE_32
    ensures CountsFit(inodes, dentries)
  {
    forall ino <- NonDirs(inodes) ensures |NamesOf(dentries, ino)| < TWO_TO_THE_32 {
      SubsetCount(dentries, ino);
    }
  }

  // --- what each call does to the number of names ---------------------------------------

  /** How many names a successful call adds (or, negative, removes). */
  ghost function NamesAdded(t: Tables, c: Call): int {
    match c
    case Mkdir(_, _, _) => 1
    case Create(_, _, _) => 1
    case Symlink(_, _, _) => 1
    case Link(_, _, _) => 1
    case Unlink(_, _) => -1
    case Rmdir(_, _) => -1
    case Rename(parent, name, newparent, newname, _) =>
      var key, newkey := DentryKey(parent, name), DentryKey(newparent, newname);
      if key in t.dentries && newkey in t.dentries && t.dentries[newkey] != t.dentries[key] then -1 else 0
    case _ => 0
  }

  lemma {:induction false} RemoveSize(dentries: Dentries, key: DentryKey)
    requires key in dentries
    ensures |dentries - {key}| == |dentries| - 1
  {
    assert (dentries - {key}).Keys == dentries.Keys - {key};
  }

  lemma {:induction false} AddSize(dentries: Dentries, key: DentryKey, ino: Ino)
    requires key !in dentries
    ensures |dentries[key := ino]| == |dentries| + 1
  {
    assert dentries[key := ino].Keys == dentries.Keys + {key};
  }

  lemma {:induction false} RenameNames(t: Tables, key: DentryKey, newkey: DentryKey, flags: RenameFlags)
    requires DoRename(t, key, newkey, flags).reply.Done?
    ensures |DoRename(t, key, newkey, flags).t.dentries| ==
            |t.dentries| - if newkey in t.dentries && t.dentries[newkey] != t.dentries[key] then 1 else 0
  {
    hide NamesOf, ChildrenOf;
    var ino := t.dentries[key];
    if newkey !in t.dentries {
      RemoveSize(t.dentries, key);
      AddSize(t.dentries - {key}, newkey, ino);
    } else if t.dentries[newkey] != ino {
      var cut := t.dentries - {newkey};
      RemoveSize(t.dentries, newkey);
      RemoveSize(cut, key);
      AddSize(cut - {key}, newkey, ino);
    }
  }

  lemma {:induction false} NewNodeNames(m: Mount, t: Tables, key: DentryKey, kind: Kind, mode: bv16,
                                        target: Option<Name>, full: Errno)
    requires key !in t.dentries
    ensures var o := NewNode(m, t, key, kind, mode, target, full);
            |o.t.dentries| == |t.dentries| + if o.reply.Err? then 0 else 1
  {
    hide NamesOf;
    AddSize(t.dentries, key, t.mark + 1);
  }

  lemma {:induction false} UnlinkNames(t: Tables, key: DentryKey)
    requires key in t.dentries
    ensures |Unlinked(t, key, t.dentries[key]).dentries| == |t.dentries| - 1
  {
    hide NamesOf;
    RemoveSize(t.dentries, key);
  }

  /** Link adds one name, unlink removes one, a rename removes one exactly when it replaces another inode. */
  lemma {:induction false} NamesCounted(m: Mount, t: Tables, c: Call)
    ensures |Apply(m, t, c).t.dentries| ==
            |t.dentries| + if Apply(m, t, c).reply.Err? then 0 else NamesAdded(t, c)
  {
    hide SqlTotal, NamesOf, EnsureRemovable, DoWrite, Changed, DoRename, NewNode, Unlinked, ModeFor;
    match c
    case Mkdir(parent, name, perm) =>
      var key := DentryKey(parent, name);
      if key !in t.dentries { NewNodeNames(m, t, key, Dir, ModeFor(Dir, perm), None, EIO); }
    case Create(parent, name, perm) =>
      var key := DentryKey(parent, name);
      if key !in t.dentries { NewNodeNames(m, t, key, File, ModeFor(File, perm), None, ENOSPC); }
    case Symlink(parent, name, target) =>
      var key := DentryKey(parent, name);
      if key !in t.dentries {
        NewNodeNames(m, t, key, Kind.Symlink, ModeFor(Kind.Symlink, 0x1FF), Some(target), EIO);
      }
    case Link(ino, parent, name) =>
      var key := DentryKey(parent, name);
      if key !in t.dentries { AddSize(t.dentries, key, ino); }
    case Unlink(parent, name) =>
      var key := DentryKey(parent, name);
      if key in t.dentries { UnlinkNames(t, key); }
    case Rmdir(parent, name) =>
      var key := DentryKey(parent, name);
      if key in t.dentries { UnlinkNames(t, key); }
    case Rename(parent, name, newparent, newname, flags) =>
      var key, newkey := DentryKey(parent, name), DentryKey(newparent, newname);
      RenameReply(t, key, newkey, flags);
      if DoRename(t, key, newkey, flags).reply.Done? { RenameNames(t, key, newkey, flags); }
    case Setattr(caller, ino, change) => ChangedDentries(t, caller, ino, change);
    case Write(fh, offset, bytes, kp) => WriteDentries(m, t, fh, offset, bytes, kp);
    case _ =>
  }

  lemma {:induction false} RenameReply(t: Tables, key: DentryKey, newkey: DentryKey, flags: RenameFlags)
    ensures var o := DoRename(t, key, newkey, flags);
            if o.reply.Err? then o.t == t else o.reply.Done? && key in t.dentries
  {
    hide NamesOf, ChildrenOf;
  }

  lemma {:induction false} ChangedDentries(t: Tables, caller: nat, ino: Ino, ch: Change)
    ensures ino in t.inodes ==> Changed(t, caller, ino, ch).dentries == t.dentries
  {
    hide DropSetid, Chmod;
  }

  lemma {:induction false} WriteDentries(m: Mount, t: Tables, ino: Ino, offset: nat, bytes: Bytes, kp: bool)
    ensures DoWrite(m, t, ino, offset, bytes, kp).t.dentries == t.dentries
  {
    hide DropSetid, SqlTotal;
  }

  // --- every reachable container ------------------------------------------------------------

  /** Whatever happens to a new container, `check` finds nothing in it, everything in it can be reached, and
      its names add up. */
  lemma {:induction false} CheckFindsNothing(m: Mount, maxSize: nat, t: Tables)
    requires Reachable(Fresh(m), maxSize, t)
    ensures Inconsistencies(t.inodes, t.dentries) == (0, 0)
    ensures forall ino <- t.inodes :: Reaches(t.dentries, ROOT_INO, ino)
    ensures forall dir <- Dirs(t.inodes) :: |NamesOf(t.dentries, dir)| == if dir == ROOT_INO then 0 else 1
    ensures |t.dentries| == SumOver(NonDirs(t.inodes), CountOf(t.dentries)) + |Dirs(t.inodes)| - 1
    ensures |t.dentries| == SumOver(NonDirs(t.inodes), Reported(t.inodes, t.dentries)) + |Dirs(t.inodes)| - 1
            <==> CountsFit(t.inodes, t.dentries)
  {
    hide Reachable, Reaches, AllNamed, OneNamePerDir, DirsReachable, BlocksInv, XattrsInv, RowsInv, MarkInv,
         Inconsistencies, NamesOf, SumOver, CountOf, Reported, CountsFit;
    FreshInv(m);
    ReachableInv(Fresh(m), maxSize, t);
    ConsistentIff(t.inodes, t.dentries);
    NamesConserved(t.inodes, t.dentries);
    forall ino <- t.inodes ensures Reaches(t.dentries, ROOT_INO, ino) {
      EverythingReachable(t.inodes, t.dentries, ino);
    }
    forall dir <- Dirs(t.inodes) ensures |NamesOf(t.dentries, dir)| == if dir == ROOT_INO then 0 else 1 {
      OneParent(t.inodes, t.dentries, dir);
    }
  }
}
