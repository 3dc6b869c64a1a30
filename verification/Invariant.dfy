/**
 What every call keeps: the namespace is a tree, blocks and attributes belong
 to live inodes and fit them, mode bits agree with the kind, and inode numbers
 stay below the AUTOINCREMENT mark.
 */
module Invariant {
  import opened Common
  import opened BlockStore
  import opened Schema
  import opened Tree
  import opened Calls

  // --- the invariant -----------------------------------------------------------

  ghost predicate BlocksInv(inodes: Inodes, data: Blocks) {
    && (forall k <- data :: k.ino in inodes)
    && (forall ino <- inodes :: inodes[ino].size <= I64_MAX && BlocksFit(data, ino, inodes[ino].size))
  }

  ghost predicate XattrsInv(inodes: Inodes, xattrs: Xattrs) {
    forall k <- xattrs ::
      && k.ino in inodes
      && 0 < |k.name| <= XATTR_NAME_MAX && 0 !in k.name
      && |xattrs[k]| <= XATTR_SIZE_MAX
  }

  /** The type bits are those of the kind, and a symlink is what has a target. */
  predicate RowOk(row: InodeRow) {
    && TypePart(row.mode) == TypeBits(row.kind)
    && row.target.Some? == row.kind.Symlink?
  }

  ghost predicate RowsInv(inodes: Inodes) {
    forall ino <- inodes :: RowOk(inodes[ino])
  }

  ghost predicate MarkInv(inodes: Inodes, mark: nat) {
    mark <= I64_MAX && forall ino <- inodes :: 1 <= ino <= mark
  }

  ghost predicate Inv(t: Tables) {
    && TreeInv(t.inodes, t.dentries)
    && BlocksInv(t.inodes, t.data)
    && XattrsInv(t.inodes, t.xattrs)
    && RowsInv(t.inodes)
    && MarkInv(t.inodes, t.mark)
  }

  /** What the kernel checks before it passes a call down. */
  ghost predicate Legal(t: Tables, c: Call) {
    match c
    case Mkdir(parent, name, _) => IsDir(t.inodes, parent) && ValidName(name)
    case Create(parent, name, _) => IsDir(t.inodes, parent) && ValidName(name)
    case Symlink(parent, name, target) => IsDir(t.inodes, parent) && ValidName(name) && |target| < 4096
    case Link(_, parent, name) => IsDir(t.inodes, parent) && ValidName(name)
    case Unlink(parent, name) =>
      var key := DentryKey(parent, name);
      key in t.dentries ==> !IsDir(t.inodes, t.dentries[key])
    case Rmdir(_, _) => true
    case Rename(parent, name, newparent, newname, _) =>
      var key := DentryKey(parent, name);
      && IsDir(t.inodes, newparent) && ValidName(newname)
      && (key in t.dentries && IsDir(t.inodes, t.dentries[key]) ==>
            !Reaches(t.dentries, t.dentries[key], newparent))
    case Setattr(_, _, _) => true
    case Write(_, _, _, _) => true
    case SetXattr(_, name, _, _, _) => 0 !in name
    case RemoveXattr(_, _) => true
  }

  /** A container as `create_container` leaves it. */
  function Fresh(m: Mount): Tables {
    Tables(map[ROOT_INO := InodeRow(Dir, ModeFor(Dir, 0x1C0), m.uid, m.gid, 0, None)], map[], map[], map[], 1)
  }

  lemma {:induction false} FreshInv(m: Mount)
    ensures Inv(Fresh(m))
  {
    assert Walk(map[], ROOT_INO, []) == Some(ROOT_INO);
    assert Reaches(map[], ROOT_INO, ROOT_INO);
    ModeForBits(Dir, 0x1C0);
  }

  // --- mode bits ---------------------------------------------------------------

  lemma {:induction false} ModeForBits(kind: Kind, perm: bv16)
    ensures TypePart(ModeFor(kind, perm)) == TypeBits(kind)
    ensures Perm(ModeFor(kind, perm)) == Perm(perm)
    ensures ModeFor(kind, perm) & 0xFFF == perm & 0xFFF
    ensures ModeFor(kind, perm) & 0xF000 == match kind case Dir => 0x4000 case File => 0x8000 case Symlink => 0xA000
  {
  }

  lemma {:induction false} ChmodBits(mode: bv16, perm: bv16)
    ensures TypePart(Chmod(mode, perm)) == TypePart(mode)
    ensures Perm(Chmod(mode, perm)) == Perm(perm)
    ensures Chmod(mode, perm) & 0xFFF == perm & 0xFFF && Chmod(mode, perm) & 0xF000 == mode & 0xF000
  {
  }

  /** 04000 is clear, 02000 is clear where 00010 is set, and every other bit is as before. */
  predicate ModeDropped(mode: bv16, after: bv16) {
    && after & 0x800 == 0
    && (after & 0x400 != 0 <==> mode & 0x400 != 0 && mode & 0x8 == 0)
    && after & 0xF3FF == mode & 0xF3FF
  }

  /** Setuid goes, setgid goes with group-execute, and every other bit stays. */
  lemma {:induction false} DropSetidBits(mode: bv16)
    ensures ModeDropped(mode, DropSetid(mode))
    ensures TypePart(DropSetid(mode)) == TypePart(mode)
  {
  }

  // --- parts of calls ------------------------------------------------------------

  /** The tree depends on kinds only. */
  lemma {:induction false} RowKeepsTree(inodes: Inodes, dentries: Dentries, ino: Ino, row: InodeRow)
    requires TreeInv(inodes, dentries) && ino in inodes && row.kind == inodes[ino].kind
    ensures TreeInv(inodes[ino := row], dentries)
  {
    hide Reaches, Named, ValidName;
    assert forall i :: IsDir(inodes[ino := row], i) == IsDir(inodes, i);
  }

  lemma {:induction false} RowKeepsBlocks(inodes: Inodes, data: Blocks, ino: Ino, row: InodeRow)
    requires BlocksInv(inodes, data) && ino in inodes && row.size == inodes[ino].size
    ensures BlocksInv(inodes[ino := row], data)
  {
  }

  lemma {:induction false} RowKeepsRest(inodes: Inodes, xattrs: Xattrs, mark: nat, ino: Ino, row: InodeRow)
    requires XattrsInv(inodes, xattrs) && RowsInv(inodes) && MarkInv(inodes, mark)
    requires 1 <= ino <= mark && RowOk(row)
    ensures XattrsInv(inodes[ino := row], xattrs) && RowsInv(inodes[ino := row]) && MarkInv(inodes[ino := row], mark)
  {
    hide RowOk;
  }

  lemma {:induction false} RowKeepsInv(t: Tables, ino: Ino, row: InodeRow)
    requires Inv(t) && ino in t.inodes
    requires row.kind == t.inodes[ino].kind && row.size == t.inodes[ino].size && RowOk(row)
    ensures Inv(WithRow(t, ino, row))
  {
    RowKeepsTree(t.inodes, t.dentries, ino, row);
    RowKeepsBlocks(t.inodes, t.data, ino, row);
    RowKeepsRest(t.inodes, t.xattrs, t.mark, ino, row);
    hide TreeInv, BlocksInv, RowsInv, XattrsInv, MarkInv, RowOk;
  }

  lemma {:induction false} InsertKeepsBlocks(inodes: Inodes, data: Blocks, ino: Ino, row: InodeRow)
    requires BlocksInv(inodes, data) && ino !in inodes && row.size <= I64_MAX
    ensures BlocksInv(inodes[ino := row], data)
  {
  }

  lemma {:induction false} InsertKeepsRest(inodes: Inodes, xattrs: Xattrs, mark: nat, row: InodeRow)
    requires XattrsInv(inodes, xattrs) && RowsInv(inodes) && MarkInv(inodes, mark)
    requires mark < I64_MAX && RowOk(row)
    ensures XattrsInv(inodes[mark + 1 := row], xattrs)
    ensures RowsInv(inodes[mark + 1 := row]) && MarkInv(inodes[mark + 1 := row], mark + 1)
  {
    hide RowOk;
  }

  lemma {:induction false} InsertKeepsInv(t: Tables, key: DentryKey, row: InodeRow)
    requires Inv(t) && t.mark < I64_MAX && key !in t.dentries
    requires IsDir(t.inodes, key.parent) && ValidName(key.name)
    requires RowOk(row) && row.size <= I64_MAX
    ensures Inv(Inserted(t, key, row))
  {
    hide TreeInv, BlocksInv, RowsInv, XattrsInv, RowOk, ValidName;
    InsertKeepsTree(t.inodes, t.dentries, key, t.mark + 1, row);
    InsertKeepsBlocks(t.inodes, t.data, t.mark + 1, row);
    InsertKeepsRest(t.inodes, t.xattrs, t.mark, row);
    hide MarkInv;
  }

  lemma {:induction false} DeleteKeepsParts(t: Tables, ino: Ino)
    requires BlocksInv(t.inodes, t.data) && XattrsInv(t.inodes, t.xattrs)
    requires RowsInv(t.inodes) && MarkInv(t.inodes, t.mark)
    ensures BlocksInv(Deleted(t, ino).inodes, Deleted(t, ino).data)
    ensures XattrsInv(Deleted(t, ino).inodes, Deleted(t, ino).xattrs)
    ensures RowsInv(Deleted(t, ino).inodes) && MarkInv(Deleted(t, ino).inodes, t.mark)
  {
    hide RowOk;
  }

  lemma {:induction false} UnlinkKeepsInv(t: Tables, key: DentryKey)
    requires Inv(t) && key in t.dentries && ChildrenOf(t.dentries, t.dentries[key]) == {}
    ensures Inv(Unlinked(t, key, t.dentries[key]))
  {
    UnlinkKeepsTree(t.inodes, t.dentries, key);
    DeleteKeepsParts(t.(dentries := t.dentries - {key}), t.dentries[key]);
    hide TreeInv, BlocksInv, RowsInv, XattrsInv, MarkInv, NamesOf;
  }

  lemma {:induction false} MoveKeepsInv(t: Tables, key: DentryKey, newkey: DentryKey)
    requires Inv(t) && key in t.dentries && newkey !in t.dentries
    requires IsDir(t.inodes, newkey.parent) && ValidName(newkey.name)
    requires !Reaches(t.dentries, t.dentries[key], newkey.parent)
    ensures Inv(Moved(t, key, newkey))
  {
    MoveKeepsTree(t.inodes, t.dentries, key, newkey);
  }

  lemma {:induction false} PrivDropKeepsInv(t: Tables, ino: Ino)
    requires Inv(t) && ino in t.inodes
    ensures Inv(PrivDropped(t, ino))
  {
    var row := t.inodes[ino].(mode := DropSetid(t.inodes[ino].mode));
    assert RowOk(row) by { DropSetidBits(t.inodes[ino].mode); }
    RowKeepsInv(t, ino, row);
    assert XattrsInv(t.inodes[ino := row], t.xattrs - {XattrKey(ino, CAPABILITY)});
    hide TreeInv, BlocksInv, RowsInv, XattrsInv, MarkInv, DropSetid;
  }

  lemma {:induction false} ResizeKeepsBlocks(inodes: Inodes, data: Blocks, ino: Ino, length: nat)
    requires BlocksInv(inodes, data) && ino in inodes && length <= I64_MAX
    ensures BlocksInv(inodes[ino := inodes[ino].(size := length)], Truncated(data, ino, length))
  {
    TruncatedFit(data, ino, inodes[ino].size, length);
    hide BlockNo, BlockOff;
    var cut := Truncated(data, ino, length);
    forall i <- inodes | i != ino ensures BlocksFit(cut, i, inodes[i].size) {
      assert BlocksFit(data, i, inodes[i].size);
    }
  }

  lemma {:induction false} ResizeKeepsInv(t: Tables, ino: Ino, length: nat)
    requires Inv(t) && ino in t.inodes && length <= I64_MAX
    ensures Inv(Resized(t, ino, length))
  {
    var row := t.inodes[ino].(size := length);
    RowKeepsTree(t.inodes, t.dentries, ino, row);
    ResizeKeepsBlocks(t.inodes, t.data, ino, length);
    RowKeepsRest(t.inodes, t.xattrs, t.mark, ino, row);
    hide TreeInv, BlocksInv, RowsInv, XattrsInv, MarkInv, Truncated;
  }

  lemma {:induction false} WriteKeepsBlocks(inodes: Inodes, data: Blocks, ino: Ino, offset: nat, bytes: Bytes)
    requires BlocksInv(inodes, data) && ino in inodes && offset + |bytes| <= I64_MAX
    ensures BlocksInv(inodes[ino := inodes[ino].(size := Max(inodes[ino].size, offset + |bytes|))],
                      WriteBlocks(data, ino, offset, bytes, 0))
  {
    WriteBlocksFit(data, ino, offset, bytes, 0, inodes[ino].size);
    hide WriteBlocks;
    var after := WriteBlocks(data, ino, offset, bytes, 0);
    forall k: BlockKey | k.ino != ino ensures (k in after <==> k in data) && (k in data ==> after[k] == data[k]) {
      WriteBlocksElsewhere(data, ino, offset, bytes, 0, k);
    }
    forall i <- inodes | i != ino ensures BlocksFit(after, i, inodes[i].size) {
      assert BlocksFit(data, i, inodes[i].size);
    }
  }

  // --- the calls -------------------------------------------------------------------

  lemma {:induction false} NewNodeKeepsInv(m: Mount, t: Tables, key: DentryKey, kind: Kind, perm: bv16,
                                           target: Option<Name>, full: Errno)
    requires Inv(t) && key !in t.dentries && IsDir(t.inodes, key.parent) && ValidName(key.name)
    requires target.Some? == kind.Symlink? && (target.Some? ==> |target.value| <= I64_MAX)
    ensures Inv(NewNode(m, t, key, kind, ModeFor(kind, perm), target, full).t)
  {
    hide Inv, ValidName;
    ModeForBits(kind, perm);
    if t.mark < I64_MAX {
      var size := if target.Some? then |target.value| else 0;
      InsertKeepsInv(t, key, InodeRow(kind, ModeFor(kind, perm), m.uid, m.gid, size, target));
    }
  }

  /** Only a directory has children, so `unlink` meets none; `ensure_removable` asks. */
  lemma {:induction false} NoChildren(t: Tables, ino: Ino)
    requires Inv(t) && (!IsDir(t.inodes, ino) || EnsureRemovable(t, ino).None?)
    ensures ChildrenOf(t.dentries, ino) == {}
  {
    assert forall k <- t.dentries :: IsDir(t.inodes, k.parent);
    hide Inv;
  }

  lemma {:induction false} UnlinkLeaves(t: Tables, key: DentryKey, newkey: DentryKey)
    requires key in t.dentries && newkey in t.dentries && t.dentries[key] != t.dentries[newkey]
    requires newkey.parent != t.dentries[newkey] && IsDir(t.inodes, newkey.parent)
    ensures var cut := Unlinked(t, newkey, t.dentries[newkey]);
            && cut.dentries == t.dentries - {newkey}
            && key in cut.dentries && cut.dentries[key] == t.dentries[key]
            && IsDir(cut.inodes, newkey.parent)
  {
    hide NamesOf;
  }

  /** A rename over another inode: first its name goes, then the other one takes the place. */
  lemma {:induction false} ReplaceKeepsInv(t: Tables, key: DentryKey, newkey: DentryKey)
    requires Inv(t) && key in t.dentries && newkey in t.dentries && t.dentries[key] != t.dentries[newkey]
    requires EnsureRemovable(t, t.dentries[newkey]).None?
    requires IsDir(t.inodes, newkey.parent) && ValidName(newkey.name)
    requires !Reaches(t.dentries, t.dentries[key], newkey.parent)
    ensures var cut := Unlinked(t, newkey, t.dentries[newkey]);
            key in cut.dentries && Inv(Moved(cut, key, newkey))
  {
    NoChildren(t, t.dentries[newkey]);
    NotItsOwnParent(t, newkey);
    hide Inv, Reaches, ValidName, NamesOf, Unlinked, EnsureRemovable;
    UnlinkKeepsInv(t, newkey);
    UnlinkLeaves(t, key, newkey);
    FewerReach(t.dentries, t.dentries - {newkey}, t.dentries[key], newkey.parent);
    MoveKeepsInv(Unlinked(t, newkey, t.dentries[newkey]), key, newkey);
  }

  lemma {:induction false} FewerReach(dentries: Dentries, fewer: Dentries, from: Ino, ino: Ino)
    requires forall k <- fewer :: k in dentries && dentries[k] == fewer[k]
    ensures Reaches(fewer, from, ino) ==> Reaches(dentries, from, ino)
  {
    if Reaches(fewer, from, ino) {
      var path :| Walk(fewer, from, path) == Some(ino);
      WalkMonotone(fewer, dentries, from, path);
    }
  }

  lemma {:induction false} RenameKeepsInv(t: Tables, key: DentryKey, newkey: DentryKey, flags: RenameFlags)
    requires Inv(t) && IsDir(t.inodes, newkey.parent) && ValidName(newkey.name)
    requires key in t.dentries && IsDir(t.inodes, t.dentries[key]) ==>
               !Reaches(t.dentries, t.dentries[key], newkey.parent)
    ensures Inv(DoRename(t, key, newkey, flags).t)
  {
    if DoRename(t, key, newkey, flags).reply.Done? && key != newkey {
      assert t.dentries[key] in t.inodes;
      OutsideOwnSubtree(t, t.dentries[key], newkey.parent);
      hide Inv, Reaches, ValidName, Unlinked, EnsureRemovable, Moved;
      if newkey in t.dentries {
        ReplaceKeepsInv(t, key, newkey);
      } else {
        MoveKeepsInv(t, key, newkey);
      }
    }
  }

  lemma {:induction false} OutsideOwnSubtree(t: Tables, ino: Ino, dir: Ino)
    requires Inv(t) && ino in t.inodes && IsDir(t.inodes, dir)
    requires IsDir(t.inodes, ino) ==> !Reaches(t.dentries, ino, dir)
    ensures !Reaches(t.dentries, ino, dir)
  {
    if Reaches(t.dentries, ino, dir) {
      var path :| Walk(t.dentries, ino, path) == Some(dir);
      WalkLive(t.inodes, t.dentries, ino, path);
    }
  }

  lemma {:induction false} NotItsOwnParent(t: Tables, key: DentryKey)
    requires Inv(t) && key in t.dentries
    ensures t.dentries[key] != key.parent
  {
    Acyclic(t.inodes, t.dentries, key.parent, [key.name]);
    WalkExtend(t.dentries, key.parent, [], key.name);
    assert [] + [key.name] == [key.name];
  }

  lemma {:induction false} SetattrKeepsInv(t: Tables, caller: nat, ino: Ino, ch: Change)
    requires Inv(t) && ino in t.inodes && (ch.size.Some? ==> ch.size.value <= I64_MAX)
    ensures Inv(Changed(t, caller, ino, ch))
  {
    var row := t.inodes[ino];
    if ch.mode.Some? { ChmodBits(row.mode, ch.mode.value); }
    var owned := WithRow(t, ino, ChangedRow(row, ch));
    RowKeepsInv(t, ino, ChangedRow(row, ch));
    hide Inv;
    var sized := if ch.size.Some? then Resized(owned, ino, ch.size.value) else owned;
    if ch.size.Some? { ResizeKeepsInv(owned, ino, ch.size.value); }
    if DropsPriv(row, caller, ch) { PrivDropKeepsInv(sized, ino); }
  }

  lemma {:induction false} WrittenKeepsInv(t: Tables, ino: Ino, offset: nat, bytes: Bytes)
    requires Inv(t) && ino in t.inodes && offset + |bytes| <= I64_MAX
    ensures Inv(Overwritten(t, ino, offset, bytes))
  {
    var row := t.inodes[ino].(size := Max(t.inodes[ino].size, offset + |bytes|));
    RowKeepsTree(t.inodes, t.dentries, ino, row);
    WriteKeepsBlocks(t.inodes, t.data, ino, offset, bytes);
    RowKeepsRest(t.inodes, t.xattrs, t.mark, ino, row);
    hide TreeInv, BlocksInv, RowsInv, XattrsInv, MarkInv, WriteBlocks;
  }

  lemma {:induction false} WriteKeepsInv(m: Mount, t: Tables, ino: Ino, offset: nat, bytes: Bytes, killPriv: bool)
    requires Inv(t)
    ensures Inv(DoWrite(m, t, ino, offset, bytes, killPriv).t)
  {
    hide Inv, Overwritten, PrivDropped, SqlTotal;
    if ino in t.inodes && offset + |bytes| <= I64_MAX {
      WrittenKeepsInv(t, ino, offset, bytes);
      if killPriv { PrivDropKeepsInv(Overwritten(t, ino, offset, bytes), ino); }
    }
  }

  /** Every call keeps the invariant, whatever it answers. */
  lemma {:induction false} CallKeepsInv(m: Mount, t: Tables, c: Call)
    requires Inv(t) && Legal(t, c)
    ensures Inv(Apply(m, t, c).t)
  {
    hide TreeInv, BlocksInv, RowsInv, MarkInv;
    match c
    case Mkdir(parent, name, perm) =>
      if DentryKey(parent, name) !in t.dentries {
        NewNodeKeepsInv(m, t, DentryKey(parent, name), Dir, perm, None, EIO);
      }
    case Create(parent, name, perm) =>
      if DentryKey(parent, name) !in t.dentries {
        NewNodeKeepsInv(m, t, DentryKey(parent, name), File, perm, None, ENOSPC);
      }
    case Symlink(parent, name, target) =>
      if DentryKey(parent, name) !in t.dentries {
        NewNodeKeepsInv(m, t, DentryKey(parent, name), Kind.Symlink, 0x1FF, Some(target), EIO);
      }
    case Link(ino, parent, name) =>
      var key := DentryKey(parent, name);
      if ino in t.inodes && !t.inodes[ino].kind.Dir? && key !in t.dentries {
        LinkKeepsTree(t.inodes, t.dentries, key, ino);
      }
    case Unlink(parent, name) =>
      var key := DentryKey(parent, name);
      if key in t.dentries {
        NoChildren(t, t.dentries[key]);
        UnlinkKeepsInv(t, key);
      }
    case Rmdir(parent, name) =>
      var key := DentryKey(parent, name);
      if key in t.dentries && EnsureRemovable(t, t.dentries[key]).None? {
        NoChildren(t, t.dentries[key]);
        UnlinkKeepsInv(t, key);
      }
    case Rename(parent, name, newparent, newname, flags) =>
      RenameKeepsInv(t, DentryKey(parent, name), DentryKey(newparent, newname), flags);
    case Setattr(caller, ino, change) =>
      if DoSetattr(m, t, caller, ino, change).reply.Entry? { SetattrKeepsInv(t, caller, ino, change); }
    case Write(fh, offset, bytes, killPriv) => WriteKeepsInv(m, t, fh, offset, bytes, killPriv);
    case SetXattr(_, _, _, _, _) =>
    case RemoveXattr(_, _) =>
  }
}
