/** Whole runs of a container: any calls, by any users, over any number of mounts. */
module Runs {
  import opened Common
  import opened BlockStore
  import opened Schema
  import opened Tree
  import opened Calls
  import opened Invariant

  /** A call, and the mount it came through. */
  datatype Event = Event(m: Mount, c: Call)

  /** `s` lists the tables before, between and after the events `es`; the size ceiling belongs to the container. */
  ghost predicate Run(start: Tables, maxSize: nat, s: seq<Tables>, es: seq<Event>) {
    && |s| == |es| + 1
    && s[0] == start
    && forall i :: 0 <= i < |es| ==>
         && es[i].m.maxSize == maxSize
         && Legal(s[i], es[i].c)
         && s[i + 1] == Apply(es[i].m, s[i], es[i].c).t
  }

  /** Every state of every run satisfies the invariant. */
  lemma {:induction false} RunKeepsInv(start: Tables, maxSize: nat, s: seq<Tables>, es: seq<Event>, i: nat)
    requires Run(start, maxSize, s, es) && Inv(start) && i < |s|
    ensures Inv(s[i])
  {
    hide Inv, Legal, Apply;
    if i == 0 {
    } else {
      RunKeepsInv(start, maxSize, s, es, i - 1);
      assert s[i] == s[i - 1 + 1];
      CallKeepsInv(es[i - 1].m, s[i - 1], es[i - 1].c);
    }
  }

  /** Some run from `start` ends in `t`. */
  ghost predicate Reachable(start: Tables, maxSize: nat, t: Tables) {
    exists s: seq<Tables>, es: seq<Event> :: Run(start, maxSize, s, es) && s[|s| - 1] == t
  }

  lemma {:induction false} ReachableStart(start: Tables, maxSize: nat)
    ensures Reachable(start, maxSize, start)
  {
    var s: seq<Tables>, es: seq<Event> := [start], [];
    assert Run(start, maxSize, s, es);
  }

  lemma {:induction false} ReachableStep(start: Tables, t: Tables, m: Mount, c: Call)
    requires Reachable(start, m.maxSize, t) && Legal(t, c)
    ensures Reachable(start, m.maxSize, Apply(m, t, c).t)
  {
    hide Legal, Apply;
    var s, es :| Run(start, m.maxSize, s, es) && s[|s| - 1] == t;
    var s', es' := s + [Apply(m, t, c).t], es + [Event(m, c)];
    assert Run(start, m.maxSize, s', es') && s'[|s'| - 1] == Apply(m, t, c).t;
  }

  lemma {:induction false} ReachableInv(start: Tables, maxSize: nat, t: Tables)
    requires Reachable(start, maxSize, t) && Inv(start)
    ensures Inv(t)
  {
    hide Inv;
    var s, es :| Run(start, maxSize, s, es) && s[|s| - 1] == t;
    RunKeepsInv(start, maxSize, s, es, |s| - 1);
  }

  // --- inode numbers -------------------------------------------------------------

  /** Live inodes were live before or are new, above every number handed out so far. */
  ghost predicate Ages(t: Tables, after: Tables) {
    && t.mark <= after.mark
    && forall ino <- after.inodes ::
         if ino in t.inodes then
           after.inodes[ino].kind == t.inodes[ino].kind && after.inodes[ino].target == t.inodes[ino].target
         else t.mark < ino <= after.mark
  }

  lemma {:induction false} RowAges(t: Tables, ino: Ino, row: InodeRow)
    requires ino in t.inodes && row.kind == t.inodes[ino].kind && row.target == t.inodes[ino].target
    ensures Ages(t, WithRow(t, ino, row))
  {
  }

  lemma {:induction false} ChangedAges(t: Tables, caller: nat, ino: Ino, ch: Change)
    requires ino in t.inodes
    ensures Ages(t, Changed(t, caller, ino, ch))
  {
    hide Ages, Chmod, DropSetid, Truncated;
    var row := Changed(t, caller, ino, ch).inodes[ino];
    assert Changed(t, caller, ino, ch).inodes == t.inodes[ino := row];
    RowAges(t, ino, row);
    AgesOfParts(t, WithRow(t, ino, row), Changed(t, caller, ino, ch));
  }

  lemma {:induction false} AgesOfParts(t: Tables, u: Tables, v: Tables)
    requires Ages(t, u) && u.inodes == v.inodes && u.mark == v.mark
    ensures Ages(t, v)
  {
  }

  lemma {:induction false} WriteAges(m: Mount, t: Tables, ino: Ino, offset: nat, bytes: Bytes, killPriv: bool)
    ensures Ages(t, DoWrite(m, t, ino, offset, bytes, killPriv).t)
  {
    hide WriteBlocks, SqlTotal, DropSetid;
  }

  lemma {:induction false} RenameAges(t: Tables, key: DentryKey, newkey: DentryKey, flags: RenameFlags)
    ensures Ages(t, DoRename(t, key, newkey, flags).t)
  {
    hide NamesOf, ChildrenOf;
  }

  lemma {:induction false} NewNodeAges(m: Mount, t: Tables, key: DentryKey, kind: Kind, mode: bv16,
                                       target: Option<Name>, full: Errno)
    requires MarkInv(t.inodes, t.mark)
    ensures Ages(t, NewNode(m, t, key, kind, mode, target, full).t)
  {
    hide NamesOf;
  }

  lemma {:induction false} UnlinkAges(t: Tables, key: DentryKey, ino: Ino)
    ensures Ages(t, Unlinked(t, key, ino))
  {
    hide NamesOf;
  }

  lemma {:induction false} SameAges(t: Tables)
    ensures Ages(t, t)
  {
  }

  lemma {:induction false} CallAges(m: Mount, t: Tables, c: Call)
    requires MarkInv(t.inodes, t.mark)
    ensures Ages(t, Apply(m, t, c).t)
  {
    SameAges(t);
    hide SqlTotal, NewNode, Unlinked, EnsureRemovable, ModeFor, Changed, DoWrite, DoRename, MarkInv;
    match c
    case Mkdir(parent, name, perm) =>
      NewNodeAges(m, t, DentryKey(parent, name), Dir, ModeFor(Dir, perm), None, EIO);
    case Create(parent, name, perm) =>
      NewNodeAges(m, t, DentryKey(parent, name), File, ModeFor(File, perm), None, ENOSPC);
    case Symlink(parent, name, target) =>
      NewNodeAges(m, t, DentryKey(parent, name), Kind.Symlink, ModeFor(Kind.Symlink, 0x1FF), Some(target), EIO);
    case Unlink(parent, name) =>
      var key := DentryKey(parent, name);
      if key in t.dentries { UnlinkAges(t, key, t.dentries[key]); }
    case Rmdir(parent, name) =>
      var key := DentryKey(parent, name);
      if key in t.dentries { UnlinkAges(t, key, t.dentries[key]); }
    case Setattr(caller, ino, change) => if ino in t.inodes { ChangedAges(t, caller, ino, change); }
    case Write(fh, offset, bytes, killPriv) => WriteAges(m, t, fh, offset, bytes, killPriv);
    case Rename(parent, name, newparent, newname, flags) =>
      RenameAges(t, DentryKey(parent, name), DentryKey(newparent, newname), flags);
    case _ =>
  }

  lemma {:induction false} RunAges(start: Tables, maxSize: nat, s: seq<Tables>, es: seq<Event>, j: nat, k: nat)
    requires Run(start, maxSize, s, es) && Inv(start) && j <= k < |s|
    ensures Ages(s[j], s[k])
    decreases k - j
  {
    hide Legal, Apply, TreeInv, BlocksInv, XattrsInv, RowsInv;
    RunKeepsInv(start, maxSize, s, es, j);
    if j == k {
    } else {
      RunAges(start, maxSize, s, es, j, k - 1);
      RunKeepsInv(start, maxSize, s, es, k - 1);
      CallAges(es[k - 1].m, s[k - 1], es[k - 1].c);
      assert s[k] == s[k - 1 + 1];
    }
  }

  /** A number that has been handed out and is free again stays free, and a live one keeps its kind
      and symlink target: it never comes to mean another file. */
  lemma {:induction false} NeverReused(start: Tables, maxSize: nat, s: seq<Tables>, es: seq<Event>,
                                       i: nat, j: nat, k: nat, ino: Ino)
    requires Run(start, maxSize, s, es) && Inv(start) && i <= j <= k < |s|
    requires ino in s[i].inodes
    ensures ino !in s[j].inodes ==> ino !in s[k].inodes
    ensures ino in s[k].inodes ==>
              s[k].inodes[ino].kind == s[i].inodes[ino].kind && s[k].inodes[ino].target == s[i].inodes[ino].target
  {
    RunKeepsInv(start, maxSize, s, es, i);
    RunAges(start, maxSize, s, es, i, j);
    RunAges(start, maxSize, s, es, j, k);
    RunAges(start, maxSize, s, es, i, k);
  }

  /** Once a file is gone it is gone for every later read, and writing through a handle to it changes
      nothing and answers ENOENT (or EFBIG, which is tested first). */
  lemma {:induction false} StaleHandle(start: Tables, maxSize: nat, s: seq<Tables>, es: seq<Event>,
                                       i: nat, j: nat, k: nat, fh: Ino, m: Mount, offset: nat, bytes: Bytes, kp: bool)
    requires Run(start, maxSize, s, es) && Inv(start) && i <= j <= k < |s|
    requires fh in s[i].inodes && fh !in s[j].inodes
    ensures fh !in s[k].inodes
    ensures Apply(m, s[k], Write(fh, offset, bytes, kp)) ==
            Outcome(s[k], Err(if offset + |bytes| > I64_MAX then EFBIG else ENOENT))
  {
    NeverReused(start, maxSize, s, es, i, j, k, fh);
  }

  // --- all or nothing --------------------------------------------------------------

  lemma {:induction false} ErrorChangesNothing(m: Mount, t: Tables, c: Call)
    requires Apply(m, t, c).reply.Err?
    ensures Apply(m, t, c).t == t
  {
    hide SqlTotal, WriteBlocks, Changed, Inserted, Unlinked;
  }

  // --- privileges --------------------------------------------------------------------

  /** The calls after which an inode must have lost its privileges: a write the kernel flags, a truncate by
      anyone but root, and a chown of what is no directory, the last two unless they set the mode as well. */
  ghost predicate MustDropPriv(t: Tables, c: Call, ino: Ino)
    requires ino in t.inodes
  {
    || (c.Write? && c.fh == ino && c.killPriv)
    || (c.Setattr? && c.ino == ino && c.change.mode.None? && c.change.size.Some? && c.caller != 0)
    || (c.Setattr? && c.ino == ino && c.change.mode.None? && (c.change.uid.Some? || c.change.gid.Some?)
        && !t.inodes[ino].kind.Dir?)
  }

  /** Setuid is clear, setgid with group-execute is clear, `security.capability` is gone; every other
      mode bit and every other attribute, of this inode or another, is as before. */
  ghost predicate PrivGone(t: Tables, after: Tables, ino: Ino)
    requires ino in t.inodes
  {
    && ino in after.inodes
    && var mode, mode' := t.inodes[ino].mode, after.inodes[ino].mode;
    && ModeDropped(mode, mode')
    && after.xattrs == t.xattrs - {XattrKey(ino, CAPABILITY)}
  }

  lemma {:induction false} PrivDroppedGone(t: Tables, prepared: Tables, ino: Ino)
    requires ino in t.inodes && ino in prepared.inodes
    requires prepared.inodes[ino].mode == t.inodes[ino].mode && prepared.xattrs == t.xattrs
    ensures PrivGone(t, PrivDropped(prepared, ino), ino)
  {
    hide DropSetid, ModeDropped;
    DropSetidBits(t.inodes[ino].mode);
  }

  lemma {:induction false} PrivilegesDropped(m: Mount, t: Tables, c: Call, ino: Ino)
    requires ino in t.inodes && !Apply(m, t, c).reply.Err? && MustDropPriv(t, c, ino)
    ensures PrivGone(t, Apply(m, t, c).t, ino)
  {
    hide SqlTotal, WriteBlocks, Truncated, PrivGone, PrivDropped, Chmod;
    if c.Write? {
      PrivDroppedGone(t, Overwritten(t, ino, c.offset, c.bytes), ino);
    } else {
      var owned := WithRow(t, ino, ChangedRow(t.inodes[ino], c.change));
      PrivDroppedGone(t, if c.change.size.Some? then Resized(owned, ino, c.change.size.value) else owned, ino);
    }
  }

  /** No other call touches the mode of an inode that was there, except `setattr` with a mode. */
  lemma {:induction false} PrivilegesKept(m: Mount, t: Tables, c: Call, ino: Ino)
    requires ino in t.inodes && ino in Apply(m, t, c).t.inodes && Inv(t)
    requires !MustDropPriv(t, c, ino) && !(c.Setattr? && c.ino == ino && c.change.mode.Some?)
    ensures Apply(m, t, c).t.inodes[ino].mode == t.inodes[ino].mode
  {
    hide SqlTotal, WriteBlocks, Truncated, DropSetid, Chmod, NamesOf, ChildrenOf, ModeFor, TreeInv, BlocksInv, RowsInv;
  }
}
