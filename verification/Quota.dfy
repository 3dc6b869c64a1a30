/**
 The size ceiling of a container. Every call that adds bytes compares the sum of
 all sizes with it, but skips the comparison when SQLite cannot compute the sum.
 */
module Quota {
  import opened Common
  import opened BlockStore
  import opened Schema
  import opened Tree
  import opened Calls
  import opened Invariant
  import opened Runs

  // --- how each part of a call moves the sum ---------------------------------------

  lemma {:induction false} NewNodeTotal(m: Mount, t: Tables, key: DentryKey, kind: Kind, mode: bv16,
                                        target: Option<Name>, full: Errno)
    requires MarkInv(t.inodes, t.mark)
    ensures TotalSize(NewNode(m, t, key, kind, mode, target, full).t.inodes)
            <= TotalSize(t.inodes) + if target.Some? then |target.value| else 0
  {
    hide TotalSize;
    if t.mark < I64_MAX {
      var size := if target.Some? then |target.value| else 0;
      TotalInsert(t.inodes, t.mark + 1, InodeRow(kind, mode, m.uid, m.gid, size, target));
    }
  }

  lemma {:induction false} UnlinkTotal(t: Tables, key: DentryKey, ino: Ino)
    ensures TotalSize(Unlinked(t, key, ino).inodes) <= TotalSize(t.inodes)
  {
    hide TotalSize, NamesOf;
    if ino in t.inodes {
      TotalDelete(t.inodes, ino);
    } else {
      assert t.inodes - {ino} == t.inodes;
    }
  }

  lemma {:induction false} ChangedTotal(t: Tables, caller: nat, ino: Ino, ch: Change)
    requires ino in t.inodes
    ensures TotalSize(Changed(t, caller, ino, ch).inodes)
            == TotalSize(t.inodes) - t.inodes[ino].size
               + if ch.size.Some? then ch.size.value else t.inodes[ino].size
  {
    hide TotalSize, Chmod, DropSetid, Truncated;
    var after := Changed(t, caller, ino, ch).inodes;
    assert after == t.inodes[ino := after[ino]];
    TotalUpdate(t.inodes, ino, after[ino]);
  }

  lemma {:induction false} WriteTotal(m: Mount, t: Tables, ino: Ino, offset: nat, bytes: Bytes, killPriv: bool)
    requires DoWrite(m, t, ino, offset, bytes, killPriv).reply.Written?
    ensures TotalSize(DoWrite(m, t, ino, offset, bytes, killPriv).t.inodes)
            == TotalSize(t.inodes) - t.inodes[ino].size + Max(t.inodes[ino].size, offset + |bytes|)
  {
    hide TotalSize, SqlTotal, DropSetid, WriteBlocks;
    var after := DoWrite(m, t, ino, offset, bytes, killPriv).t.inodes;
    assert after == t.inodes[ino := after[ino]];
    TotalUpdate(t.inodes, ino, after[ino]);
  }

  // --- the ceiling holds -------------------------------------------------------------

  lemma {:induction false} CallHoldsQuota(m: Mount, t: Tables, c: Call)
    requires Inv(t) && 0 < m.maxSize <= I64_MAX && TotalSize(t.inodes) <= m.maxSize
    ensures TotalSize(Apply(m, t, c).t.inodes) <= m.maxSize
  {
    hide TotalSize, TreeInv, BlocksInv, XattrsInv, RowsInv, NewNode, Unlinked, Changed, EnsureRemovable, DoWrite;
    match c
    case Mkdir(parent, name, perm) =>
      NewNodeTotal(m, t, DentryKey(parent, name), Dir, ModeFor(Dir, perm), None, EIO);
    case Create(parent, name, perm) =>
      NewNodeTotal(m, t, DentryKey(parent, name), File, ModeFor(File, perm), None, ENOSPC);
    case Symlink(parent, name, target) =>
      NewNodeTotal(m, t, DentryKey(parent, name), Kind.Symlink, ModeFor(Kind.Symlink, 0x1FF), Some(target), EIO);
    case Unlink(parent, name) =>
      var key := DentryKey(parent, name);
      if key in t.dentries { UnlinkTotal(t, key, t.dentries[key]); }
    case Rmdir(parent, name) =>
      var key := DentryKey(parent, name);
      if key in t.dentries { UnlinkTotal(t, key, t.dentries[key]); }
    case Rename(parent, name, newparent, newname, flags) =>
      var newkey := DentryKey(newparent, newname);
      if newkey in t.dentries { UnlinkTotal(t, newkey, t.dentries[newkey]); }
    case Setattr(caller, ino, change) =>
      if ino in t.inodes { ChangedTotal(t, caller, ino, change); }
    case Write(fh, offset, bytes, killPriv) => WriteHoldsQuota(m, t, fh, offset, bytes, killPriv);
    case _ =>
  }

  lemma {:induction false} WriteHoldsQuota(m: Mount, t: Tables, ino: Ino, offset: nat, bytes: Bytes, killPriv: bool)
    requires 0 < m.maxSize <= I64_MAX && TotalSize(t.inodes) <= m.maxSize
    ensures TotalSize(DoWrite(m, t, ino, offset, bytes, killPriv).t.inodes) <= m.maxSize
  {
    hide TotalSize, WriteBlocks, DropSetid;
    if DoWrite(m, t, ino, offset, bytes, killPriv).reply.Written? {
      WriteTotal(m, t, ino, offset, bytes, killPriv);
    }
  }

  /** With a ceiling that fits into 63 bits the sum never exceeds it, and so SQLite can always compute it. */
  lemma {:induction false} RunHoldsQuota(start: Tables, maxSize: nat, s: seq<Tables>, es: seq<Event>, i: nat)
    requires Run(start, maxSize, s, es) && Inv(start) && i < |s|
    requires 0 < maxSize <= I64_MAX && TotalSize(start.inodes) <= maxSize
    ensures TotalSize(s[i].inodes) <= maxSize && SqlTotal(s[i].inodes) == Some(TotalSize(s[i].inodes))
  {
    hide TotalSize, Inv, Legal, Apply;
    if i == 0 {
    } else {
      RunHoldsQuota(start, maxSize, s, es, i - 1);
      RunKeepsInv(start, maxSize, s, es, i - 1);
      CallHoldsQuota(es[i - 1].m, s[i - 1], es[i - 1].c);
      assert s[i] == s[i - 1 + 1];
    }
  }

  // --- and only then -------------------------------------------------------------------

  /** The ceiling is never exceeded, whatever happens to a container created with it. */
  ghost predicate AlwaysHeld(maxSize: nat) {
    forall m: Mount, t: Tables :: Reachable(Fresh(m), maxSize, t) ==> TotalSize(t.inodes) <= maxSize
  }

  lemma {:induction false} FreshTotal(m: Mount)
    ensures TotalSize(Fresh(m).inodes) == 0
  {
    SumRemove(Fresh(m).inodes.Keys, SizeOf(Fresh(m).inodes), ROOT_INO);
    assert Fresh(m).inodes.Keys - {ROOT_INO} == {};
  }

  /** The inodes 2 to `n + 1` are empty files, and there are no others but the root. */
  ghost predicate OnlyEmptyFiles(t: Tables, n: nat) {
    && t.mark == n + 1 && IsDir(t.inodes, ROOT_INO) && TotalSize(t.inodes) == 0
    && (forall ino <- t.inodes :: ino <= t.mark)
    && (forall ino: Ino :: 2 <= ino <= n + 1 ==> ino in t.inodes && t.inodes[ino].size == 0)
    && (forall k <- t.dentries :: |k.name| <= n)
  }

  lemma {:induction false} AddFile(m: Mount, t: Tables, n: nat, name: Name)
    requires OnlyEmptyFiles(t, n) && n < 10 && m.maxSize > 0 && |name| == n + 1
    ensures OnlyEmptyFiles(Apply(m, t, Create(ROOT_INO, name, 0)).t, n + 1)
  {
    hide TotalSize, ModeFor, NamesOf;
    var row := InodeRow(File, ModeFor(File, 0), m.uid, m.gid, 0, None);
    assert DentryKey(ROOT_INO, name) !in t.dentries;
    assert Apply(m, t, Create(ROOT_INO, name, 0)).t.inodes == t.inodes[n + 2 := row];
    TotalInsert(t.inodes, n + 2, row);
  }

  lemma {:induction false} EmptyFiles(m: Mount, n: nat) returns (t: Tables)
    requires m.maxSize > 0 && n <= 10
    ensures Reachable(Fresh(m), m.maxSize, t) && OnlyEmptyFiles(t, n)
  {
    if n == 0 {
      t := Fresh(m);
      FreshTotal(m);
      ReachableStart(t, m.maxSize);
    } else {
      var before := EmptyFiles(m, n - 1);
      var name := seq(n, _ => 97);
      assert Legal(before, Create(ROOT_INO, name, 0)) by {
        assert name[0] == 97 && forall b <- name :: b == 97;
      }
      t := Apply(m, before, Create(ROOT_INO, name, 0)).t;
      hide TotalSize, Fresh, Apply, Reachable, OnlyEmptyFiles, Legal;
      AddFile(m, before, n - 1, name);
      ReachableStep(Fresh(m), before, m, Create(ROOT_INO, name, 0));
    }
  }

  /** The inodes 2, 3 and 4 hold `a`, `b` and `c` bytes, and nothing else holds any. */
  ghost predicate Stored(t: Tables, a: nat, b: nat, c: nat) {
    && TotalSize(t.inodes) == a + b + c
    && 2 in t.inodes && t.inodes[2].size == a
    && 3 in t.inodes && t.inodes[3].size == b
    && 4 in t.inodes && t.inodes[4].size == c
  }

  /** A file grows: the sum says there is room, or SQLite cannot compute it. */
  lemma {:induction false} Grow(m: Mount, t: Tables, a: nat, b: nat, c: nat, ino: Ino, length: nat)
    returns (after: Tables)
    requires Reachable(Fresh(m), m.maxSize, t) && Stored(t, a, b, c) && 2 <= ino <= 4
    requires (if ino == 2 then a else if ino == 3 then b else c) <= length <= I64_MAX
    requires a + b + c + length - (if ino == 2 then a else if ino == 3 then b else c) <= m.maxSize || a + b + c > I64_MAX
    ensures Reachable(Fresh(m), m.maxSize, after)
    ensures ino == 2 ==> Stored(after, length, b, c)
    ensures ino == 3 ==> Stored(after, a, length, c)
    ensures ino == 4 ==> Stored(after, a, b, length)
  {
    hide TotalSize, Fresh, Truncated, Reachable, NamesOf;
    var ch := Change(None, None, None, Some(length));
    ReachableStep(Fresh(m), t, m, Setattr(0, ino, ch));
    ChangedTotal(t, 0, ino, ch);
    after := Apply(m, t, Setattr(0, ino, ch)).t;
    assert after.inodes == t.inodes[ino := t.inodes[ino].(size := length)];
  }

  lemma {:induction false} EmptyIsStored(t: Tables)
    requires OnlyEmptyFiles(t, 3)
    ensures Stored(t, 0, 0, 0)
  {
    hide TotalSize;
  }

  lemma {:induction false} Overfull(m: Mount) returns (t: Tables)
    requires I64_MAX < m.maxSize
    ensures Reachable(Fresh(m), m.maxSize, t) && TotalSize(t.inodes) == 3 * I64_MAX
  {
    hide Fresh, Reachable, TotalSize, Stored, OnlyEmptyFiles;
    var n := I64_MAX as nat;
    t := EmptyFiles(m, 3);
    EmptyIsStored(t);
    t := Grow(m, t, 0, 0, 0, 2, n);
    t := Grow(m, t, n, 0, 0, 3, 1);
    t := Grow(m, t, n, 1, 0, 3, n);
    t := Grow(m, t, n, n, 0, 4, n);
    StoredTotal(t, n, n, n);
  }

  /** A ceiling of 2^63 or more: one byte past 2^63 - 1 the sum overflows, and from there on nothing is refused. */
  lemma {:induction false} QuotaLost(maxSize: nat)
    requires I64_MAX < maxSize < TWO_TO_THE_64
    ensures !AlwaysHeld(maxSize)
  {
    hide Fresh, Reachable, TotalSize;
    var t := Overfull(Mount(maxSize, 0, 0));
    assert Reachable(Fresh(Mount(maxSize, 0, 0)), maxSize, t);
  }

  lemma {:induction false} StoredTotal(t: Tables, a: nat, b: nat, c: nat)
    requires Stored(t, a, b, c)
    ensures TotalSize(t.inodes) == a + b + c
  {
    hide TotalSize;
  }

  /** A ceiling works exactly when it fits into 63 bits. */
  lemma {:induction false} QuotaIffFits(maxSize: nat)
    requires 0 < maxSize < TWO_TO_THE_64
    ensures AlwaysHeld(maxSize) <==> maxSize <= I64_MAX
  {
    if maxSize <= I64_MAX {
      forall m: Mount, t: Tables | Reachable(Fresh(m), maxSize, t) ensures TotalSize(t.inodes) <= maxSize {
        var s, es :| Run(Fresh(m), maxSize, s, es) && s[|s| - 1] == t;
        FreshInv(m);
        FreshTotal(m);
        RunHoldsQuota(Fresh(m), maxSize, s, es, |s| - 1);
      }
    } else {
      QuotaLost(maxSize);
    }
  }
}
