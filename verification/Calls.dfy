/**
 What each call that changes the container does to the four tables, as a
 function of the tables before it. The class CofferFS carries these out
 statement by statement inside a transaction; the theorems about runs are
 proved about these functions.
 */
module Calls {
  import opened Common
  import opened BlockStore
  import opened Schema

  datatype Errno =
    EEXIST | ENOENT | ENOTEMPTY | EBUSY | EPERM | EINVAL | EFBIG | ENOSPC | EIO | ENODATA | ERANGE | E2BIG

  datatype FileAttr =
    FileAttr(ino: Ino, kind: Kind, size: nat, perm: bv16, nlink: nat, uid: nat, gid: nat)

  datatype Reply = Err(errno: Errno) | Done | Entry(attr: FileAttr) | Written(count: nat)

  datatype Outcome = Outcome(t: Tables, reply: Reply)

  /** What a mount fixes once: the size ceiling (0 for none) and the user it runs as. */
  datatype Mount = Mount(maxSize: nat, uid: nat, gid: nat)

  datatype RenameFlags = RenameFlags(noreplace: bool, exchange: bool, whiteout: bool)

  /** What a `setattr` asks to change. */
  datatype Change = Change(mode: Option<bv16>, uid: Option<nat>, gid: Option<nat>, size: Option<nat>)

  datatype Call =
    | Mkdir(parent: Ino, name: Name, perm: bv16)
    | Create(parent: Ino, name: Name, perm: bv16)
    | Symlink(parent: Ino, name: Name, target: Name)
    | Link(ino: Ino, parent: Ino, name: Name)
    | Unlink(parent: Ino, name: Name)
    | Rmdir(parent: Ino, name: Name)
    | Rename(parent: Ino, name: Name, newparent: Ino, newname: Name, flags: RenameFlags)
    | Setattr(caller: nat, ino: Ino, change: Change)
    | Write(fh: Ino, offset: nat, bytes: Bytes, killPriv: bool)
    | SetXattr(ino: Ino, name: Name, value: Bytes, create: bool, replace: bool)
    | RemoveXattr(ino: Ino, name: Name)

  const XATTR_NAME_MAX := 255
  const XATTR_SIZE_MAX := 65536

  // --- statements -------------------------------------------------------------

  function ToAttr(t: Tables, ino: Ino): FileAttr
    requires ino in t.inodes
  {
    var row := t.inodes[ino];
    FileAttr(ino, row.kind, row.size, Perm(row.mode), Nlink(t.inodes, t.dentries, ino), row.uid, row.gid)
  }

  /** What `stat` says of an inode, column by column: the twelve permission bits of the mode, and as links
      2 for a directory and else the number of names, in 32 bits. */
  predicate Describes(attr: FileAttr, t: Tables, ino: Ino) {
    && ino in t.inodes && attr.ino == ino
    && var row := t.inodes[ino];
    && attr.kind == row.kind && attr.size == row.size && attr.uid == row.uid && attr.gid == row.gid
    && attr.perm == row.mode & 0xFFF
    && attr.nlink == if row.kind.Dir? then 2 else |set k | k in t.dentries && t.dentries[k] == ino| % 0x1_0000_0000
  }

  lemma {:induction false} AttrDescribes(t: Tables, ino: Ino)
    requires ino in t.inodes
    ensures Describes(ToAttr(t, ino), t, ino)
  {
    assert NamesOf(t.dentries, ino) == set k | k in t.dentries && t.dentries[k] == ino;
  }

  function Inserted(t: Tables, key: DentryKey, row: InodeRow): Tables {
    var ino := t.mark + 1;
    t.(inodes := t.inodes[ino := row], dentries := t.dentries[key := ino], mark := ino)
  }

  function WithoutXattrs(xattrs: Xattrs, ino: Ino): Xattrs {
    map k | k in xattrs && k.ino != ino :: xattrs[k]
  }

  function Deleted(t: Tables, ino: Ino): Tables {
    t.(inodes := t.inodes - {ino}, data := WithoutInode(t.data, ino), xattrs := WithoutXattrs(t.xattrs, ino))
  }

  function Unlinked(t: Tables, key: DentryKey, ino: Ino): Tables {
    var cut := t.(dentries := t.dentries - {key});
    if NamesOf(cut.dentries, ino) == {} then Deleted(cut, ino) else cut
  }

  function EnsureRemovable(t: Tables, ino: Ino): Option<Errno> {
    if ino !in t.inodes then Some(EIO)
    else if t.inodes[ino].kind.Dir? && ChildrenOf(t.dentries, ino) != {} then Some(ENOTEMPTY)
    else None
  }

  function WithRow(t: Tables, ino: Ino, row: InodeRow): Tables {
    t.(inodes := t.inodes[ino := row])
  }

  function Resized(t: Tables, ino: Ino, length: nat): (after: Tables)
    requires ino in t.inodes
    ensures after.inodes.Keys == t.inodes.Keys
  {
    WithRow(t, ino, t.inodes[ino].(size := length)).(data := Truncated(t.data, ino, length))
  }

  function Overwritten(t: Tables, ino: Ino, offset: nat, bytes: Bytes): (after: Tables)
    requires ino in t.inodes
    ensures after.inodes.Keys == t.inodes.Keys
  {
    var row := t.inodes[ino];
    WithRow(t, ino, row.(size := Max(row.size, offset + |bytes|))).(data := WriteBlocks(t.data, ino, offset, bytes, 0))
  }

  function PrivDropped(t: Tables, ino: Ino): (after: Tables)
    requires ino in t.inodes
    ensures after.inodes.Keys == t.inodes.Keys
  {
    var row := t.inodes[ino];
    WithRow(t, ino, row.(mode := DropSetid(row.mode))).(xattrs := t.xattrs - {XattrKey(ino, CAPABILITY)})
  }

  /** Whether growing the container by `growth` bytes must be refused. */
  ghost predicate OverQuota(m: Mount, inodes: Inodes, growth: nat) {
    m.maxSize != 0 && SqlTotal(inodes).Some? && SqlTotal(inodes).value + growth > m.maxSize
  }

  // --- the calls ----------------------------------------------------------------

  function NewNode(m: Mount, t: Tables, key: DentryKey, kind: Kind, mode: bv16, target: Option<Name>, full: Errno): Outcome {
    var size := if target.Some? then |target.value| else 0;
    if t.mark >= I64_MAX then Outcome(t, Err(full))
    else
      var after := Inserted(t, key, InodeRow(kind, mode, m.uid, m.gid, size, target));
      Outcome(after, Entry(ToAttr(after, t.mark + 1)))
  }

  function DoMkdir(m: Mount, t: Tables, key: DentryKey, perm: bv16): Outcome {
    if key in t.dentries then Outcome(t, Err(EEXIST))
    else NewNode(m, t, key, Dir, ModeFor(Dir, perm), None, EIO)
  }

  ghost function DoCreate(m: Mount, t: Tables, key: DentryKey, perm: bv16): Outcome {
    if key in t.dentries then Outcome(t, Err(EEXIST))
    else if m.maxSize != 0 && SqlTotal(t.inodes).Some? && SqlTotal(t.inodes).value >= m.maxSize then
      Outcome(t, Err(ENOSPC))
    else NewNode(m, t, key, File, ModeFor(File, perm), None, ENOSPC)
  }

  ghost function DoSymlink(m: Mount, t: Tables, key: DentryKey, target: Name): Outcome {
    if key in t.dentries then Outcome(t, Err(EEXIST))
    else if OverQuota(m, t.inodes, |target|) then Outcome(t, Err(ENOSPC))
    else NewNode(m, t, key, Kind.Symlink, ModeFor(Kind.Symlink, 0x1FF), Some(target), EIO)
  }

  function DoLink(t: Tables, ino: Ino, key: DentryKey): Outcome {
    if ino !in t.inodes then Outcome(t, Err(ENOENT))
    else if t.inodes[ino].kind.Dir? then Outcome(t, Err(EPERM))
    else if key in t.dentries then Outcome(t, Err(EEXIST))
    else
      var after := t.(dentries := t.dentries[key := ino]);
      Outcome(after, Entry(ToAttr(after, ino)))
  }

  function DoUnlink(t: Tables, key: DentryKey): Outcome {
    if key !in t.dentries then Outcome(t, Err(ENOENT))
    else Outcome(Unlinked(t, key, t.dentries[key]), Done)
  }

  function DoRmdir(t: Tables, key: DentryKey): Outcome {
    if key !in t.dentries then Outcome(t, Err(ENOENT))
    else if t.dentries[key] == ROOT_INO then Outcome(t, Err(EBUSY))
    else
      match EnsureRemovable(t, t.dentries[key])
      case Some(e) => Outcome(t, Err(e))
      case None => Outcome(Unlinked(t, key, t.dentries[key]), Done)
  }

  /** The UPDATE of a rename: one row gets a new primary key. */
  function Moved(t: Tables, key: DentryKey, newkey: DentryKey): Tables
    requires key in t.dentries
  {
    t.(dentries := (t.dentries - {key})[newkey := t.dentries[key]])
  }

  function DoRename(t: Tables, key: DentryKey, newkey: DentryKey, flags: RenameFlags): Outcome {
    if key !in t.dentries then Outcome(t, Err(ENOENT))
    else
      var ino, target := t.dentries[key], Child(t.dentries, newkey);
      if flags.exchange || flags.whiteout then Outcome(t, Err(EINVAL))
      else if flags.noreplace && target.Some? then Outcome(t, Err(EEXIST))
      else if target.None? then Outcome(Moved(t, key, newkey), Done)
      else if target.value == ino then
        // Nothing is removed, so the UPDATE meets the row of the other name.
        if newkey == key then Outcome(t, Done) else Outcome(t, Err(EIO))
      else
        match EnsureRemovable(t, target.value)
        case Some(e) => Outcome(t, Err(e))
        case None => Outcome(Moved(Unlinked(t, newkey, target.value), key, newkey), Done)
  }

  function ChangedRow(row: InodeRow, ch: Change): InodeRow {
    row.(mode := if ch.mode.Some? then Chmod(row.mode, ch.mode.value) else row.mode,
         uid := if ch.uid.Some? then ch.uid.value else row.uid,
         gid := if ch.gid.Some? then ch.gid.value else row.gid)
  }

  /** Whether a `setattr` has to drop privileges: a truncate by anyone but root, or a chown of a
      non-directory, unless the same call sets the mode. */
  predicate DropsPriv(row: InodeRow, caller: nat, ch: Change) {
    && ch.mode.None?
    && ((ch.size.Some? && caller != 0) || ((ch.uid.Some? || ch.gid.Some?) && !row.kind.Dir?))
  }

  function Changed(t: Tables, caller: nat, ino: Ino, ch: Change): (after: Tables)
    requires ino in t.inodes
    ensures after.inodes.Keys == t.inodes.Keys
  {
    var row := t.inodes[ino];
    var owned := WithRow(t, ino, ChangedRow(row, ch));
    var sized := if ch.size.Some? then Resized(owned, ino, ch.size.value) else owned;
    if DropsPriv(row, caller, ch) then PrivDropped(sized, ino) else sized
  }

  ghost function DoSetattr(m: Mount, t: Tables, caller: nat, ino: Ino, ch: Change): Outcome {
    if ino !in t.inodes then Outcome(t, Err(ENOENT))
    else if ch.size.Some? && ch.size.value > I64_MAX then Outcome(t, Err(EFBIG))
    else if ch.size.Some? && ch.size.value > t.inodes[ino].size
            && OverQuota(m, t.inodes, ch.size.value - t.inodes[ino].size) then Outcome(t, Err(ENOSPC))
    else
      var after := Changed(t, caller, ino, ch);
      Outcome(after, Entry(ToAttr(after, ino)))
  }

  ghost function DoWrite(m: Mount, t: Tables, ino: Ino, offset: nat, bytes: Bytes, killPriv: bool): Outcome {
    if offset > I64_MAX || |bytes| > I64_MAX - offset then Outcome(t, Err(EFBIG))
    else if ino !in t.inodes then Outcome(t, Err(ENOENT))
    else
      var row := t.inodes[ino];
      var needed := offset + |bytes|;
      if needed > row.size && OverQuota(m, t.inodes, needed - row.size) then Outcome(t, Err(ENOSPC))
      else
        var written := Overwritten(t, ino, offset, bytes);
        Outcome(if killPriv then PrivDropped(written, ino) else written, Written(|bytes| % TWO_TO_THE_32))
  }

  function DoSetXattr(t: Tables, ino: Ino, name: Name, value: Bytes, create: bool, replace: bool): Outcome {
    if name == [] || |name| > XATTR_NAME_MAX then Outcome(t, Err(ERANGE))
    else if |value| > XATTR_SIZE_MAX then Outcome(t, Err(E2BIG))
    else if ino !in t.inodes then Outcome(t, Err(ENOENT))
    else if create && XattrKey(ino, name) in t.xattrs then Outcome(t, Err(EEXIST))
    else if replace && XattrKey(ino, name) !in t.xattrs then Outcome(t, Err(ENODATA))
    else Outcome(t.(xattrs := t.xattrs[XattrKey(ino, name) := value]), Done)
  }

  function DoRemoveXattr(t: Tables, ino: Ino, name: Name): Outcome {
    if XattrKey(ino, name) !in t.xattrs then Outcome(t, Err(ENODATA))
    else Outcome(t.(xattrs := t.xattrs - {XattrKey(ino, name)}), Done)
  }

  ghost function Apply(m: Mount, t: Tables, c: Call): Outcome {
    match c
    case Mkdir(parent, name, perm) => DoMkdir(m, t, DentryKey(parent, name), perm)
    case Create(parent, name, perm) => DoCreate(m, t, DentryKey(parent, name), perm)
    case Symlink(parent, name, target) => DoSymlink(m, t, DentryKey(parent, name), target)
    case Link(ino, parent, name) => DoLink(t, ino, DentryKey(parent, name))
    case Unlink(parent, name) => DoUnlink(t, DentryKey(parent, name))
    case Rmdir(parent, name) => DoRmdir(t, DentryKey(parent, name))
    case Rename(parent, name, newparent, newname, flags) =>
      DoRename(t, DentryKey(parent, name), DentryKey(newparent, newname), flags)
    case Setattr(caller, ino, change) => DoSetattr(m, t, caller, ino, change)
    case Write(fh, offset, bytes, killPriv) => DoWrite(m, t, fh, offset, bytes, killPriv)
    case SetXattr(ino, name, value, create, replace) => DoSetXattr(t, ino, name, value, create, replace)
    case RemoveXattr(ino, name) => DoRemoveXattr(t, ino, name)
  }
}
