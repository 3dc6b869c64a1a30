/** What each call leaves in the tables, name by name, row by row and attribute by attribute. */
module Effects {
  import opened Common
  import opened BlockStore
  import opened Schema
  import opened Tree
  import opened Calls
  import opened Invariant
  import opened Runs

  // --- names -----------------------------------------------------------------------

  /** What a name leads to after a successful call. */
  ghost function NameAfter(t: Tables, c: Call, k: DentryKey): Option<Ino> {
    match c
    case Mkdir(parent, name, _) => if k == DentryKey(parent, name) then Some(t.mark + 1) else Child(t.dentries, k)
    case Create(parent, name, _) => if k == DentryKey(parent, name) then Some(t.mark + 1) else Child(t.dentries, k)
    case Symlink(parent, name, _) => if k == DentryKey(parent, name) then Some(t.mark + 1) else Child(t.dentries, k)
    case Link(ino, parent, name) => if k == DentryKey(parent, name) then Some(ino) else Child(t.dentries, k)
    case Unlink(parent, name) => if k == DentryKey(parent, name) then None else Child(t.dentries, k)
    case Rmdir(parent, name) => if k == DentryKey(parent, name) then None else Child(t.dentries, k)
    case Rename(parent, name, newparent, newname, _) =>
      if k == DentryKey(newparent, newname) then Child(t.dentries, DentryKey(parent, name))
      else if k == DentryKey(parent, name) then None
      else Child(t.dentries, k)
    case _ => Child(t.dentries, k)
  }

  lemma {:induction false} NewNodeName(m: Mount, t: Tables, key: DentryKey, kind: Kind, mode: bv16,
                                       target: Option<Name>, full: Errno, k: DentryKey)
    ensures var o := NewNode(m, t, key, kind, mode, target, full);
            Child(o.t.dentries, k) == if o.reply.Err? || k != key then Child(t.dentries, k) else Some(t.mark + 1)
  {
    hide ToAttr;
  }

  lemma {:induction false} UnlinkedName(t: Tables, key: DentryKey, ino: Ino, k: DentryKey)
    ensures Child(Unlinked(t, key, ino).dentries, k) == if k == key then None else Child(t.dentries, k)
  {
    hide NamesOf;
  }

  lemma {:induction false} RenamedName(t: Tables, key: DentryKey, newkey: DentryKey, flags: RenameFlags, k: DentryKey)
    ensures var o := DoRename(t, key, newkey, flags);
            Child(o.t.dentries, k) ==
            if o.reply.Err? then Child(t.dentries, k)
            else if k == newkey then Child(t.dentries, key)
            else if k == key then None
            else Child(t.dentries, k)
  {
    hide NamesOf, EnsureRemovable, Unlinked;
    if newkey in t.dentries { UnlinkedName(t, newkey, t.dentries[newkey], k); UnlinkedName(t, newkey, t.dentries[newkey], key); }
  }

  /** Each call changes the names it is about, and no others; one that fails changes none. */
  lemma {:induction false} CallNames(m: Mount, t: Tables, c: Call, k: DentryKey)
    ensures var o := Apply(m, t, c);
            Child(o.t.dentries, k) == if o.reply.Err? then Child(t.dentries, k) else NameAfter(t, c, k)
  {
    hide SqlTotal, NamesOf, EnsureRemovable, DoWrite, Changed, DoRename, NewNode, Unlinked, ModeFor, ToAttr;
    match c
    case Mkdir(parent, name, perm) =>
      NewNodeName(m, t, DentryKey(parent, name), Dir, ModeFor(Dir, perm), None, EIO, k);
    case Create(parent, name, perm) =>
      NewNodeName(m, t, DentryKey(parent, name), File, ModeFor(File, perm), None, ENOSPC, k);
    case Symlink(parent, name, target) =>
      NewNodeName(m, t, DentryKey(parent, name), Kind.Symlink, ModeFor(Kind.Symlink, 0x1FF), Some(target), EIO, k);
    case Unlink(parent, name) =>
      var key := DentryKey(parent, name);
      if key in t.dentries { UnlinkedName(t, key, t.dentries[key], k); }
    case Rmdir(parent, name) =>
      var key := DentryKey(parent, name);
      if key in t.dentries { UnlinkedName(t, key, t.dentries[key], k); }
    case Rename(parent, name, newparent, newname, flags) =>
      RenamedName(t, DentryKey(parent, name), DentryKey(newparent, newname), flags, k);
    case Setattr(caller, ino, change) => ChangedTables(t, caller, ino, change);
    case Write(fh, offset, bytes, kp) => WrittenTables(m, t, fh, offset, bytes, kp);
    case _ =>
  }

  lemma {:induction false} ChangedTables(t: Tables, caller: nat, ino: Ino, ch: Change)
    ensures ino in t.inodes ==>
              var after := Changed(t, caller, ino, ch);
              && after.dentries == t.dentries && after.mark == t.mark
              && after.inodes == t.inodes[ino := after.inodes[ino]]
              && after.xattrs == if DropsPriv(t.inodes[ino], caller, ch) then t.xattrs - {XattrKey(ino, CAPABILITY)} else t.xattrs
  {
    hide DropSetid, Chmod, Truncated, DropsPriv;
  }

  lemma {:induction false} WrittenTables(m: Mount, t: Tables, ino: Ino, offset: nat, bytes: Bytes, kp: bool)
    ensures var o := DoWrite(m, t, ino, offset, bytes, kp);
            && o.t.dentries == t.dentries && o.t.mark == t.mark
            && (if o.reply.Err? then o.t == t
                else
                  && ino in t.inodes && o.t.inodes == t.inodes[ino := o.t.inodes[ino]]
                  && o.t.xattrs == if kp then t.xattrs - {XattrKey(ino, CAPABILITY)} else t.xattrs)
  {
    hide DropSetid, SqlTotal, WriteBlocks;
  }

  /** After any call exactly those inodes are live that have a name, and the root. */
  lemma {:induction false} LiveIffNamed(t: Tables, ino: Ino)
    requires Inv(t)
    ensures ino in t.inodes <==> ino == ROOT_INO || exists k :: k in t.dentries && t.dentries[k] == ino
  {
    hide BlocksInv, XattrsInv, RowsInv, MarkInv, Reaches, ValidName;
    assert ino in t.inodes && ino != ROOT_INO ==> Named(t.dentries, ino);
  }

  /** The mark goes up by one with every inode that is made, and by nothing else. */
  lemma {:induction false} CallMark(m: Mount, t: Tables, c: Call)
    ensures var o := Apply(m, t, c);
            o.t.mark == if !o.reply.Err? && (c.Mkdir? || c.Create? || c.Symlink?) then t.mark + 1 else t.mark
  {
    hide SqlTotal, NamesOf, EnsureRemovable, DoWrite, Changed, ModeFor, ToAttr;
    match c
    case Setattr(caller, ino, change) => ChangedTables(t, caller, ino, change);
    case Write(fh, offset, bytes, kp) => WrittenTables(m, t, fh, offset, bytes, kp);
    case _ =>
  }

  // --- rows --------------------------------------------------------------------------

  lemma {:induction false} NewNodeRow(m: Mount, t: Tables, key: DentryKey, kind: Kind, perm: bv16,
                                      target: Option<Name>, full: Errno, ino: Ino)
    ensures var after := NewNode(m, t, key, kind, ModeFor(kind, perm), target, full).t;
            && (ino in t.inodes && ino != t.mark + 1 ==> ino in after.inodes && after.inodes[ino] == t.inodes[ino])
            && (ino in after.inodes && ino !in t.inodes ==>
                  && ino == t.mark + 1 && after.mark == ino
                  && var row := after.inodes[ino];
                  && row.kind == kind && row.mode & 0xFFF == perm & 0xFFF && row.mode & 0xF000 == TypeBits(kind)
                  && row.uid == m.uid && row.gid == m.gid && row.target == target
                  && row.size == if target.Some? then |target.value| else 0)
  {
    hide ModeFor, ToAttr, TypeBits;
    ModeForBits(kind, perm);
  }

  /** A new inode belongs to the user of the mount. */
  ghost predicate NewRow(m: Mount, c: Call, row: InodeRow) {
    && row.uid == m.uid && row.gid == m.gid
    && match c
       case Mkdir(_, _, perm) =>
         row.kind == Dir && row.mode & 0xFFF == perm & 0xFFF && row.mode & 0xF000 == 0x4000 && row.size == 0 && row.target == None
       case Create(_, _, perm) =>
         row.kind == File && row.mode & 0xFFF == perm & 0xFFF && row.mode & 0xF000 == 0x8000 && row.size == 0 && row.target == None
       case Symlink(_, _, target) =>
         row.kind == Kind.Symlink && row.mode == 0xA1FF && row.size == |target| && row.target == Some(target)
       case _ => false
  }

  /** mkdir, create and symlink make one inode, under the next number, with what was asked for; nothing else does. */
  lemma {:induction false} CallNewRow(m: Mount, t: Tables, c: Call, ino: Ino)
    requires MarkInv(t.inodes, t.mark) && ino in Apply(m, t, c).t.inodes && ino !in t.inodes
    ensures ino == t.mark + 1 && Apply(m, t, c).t.mark == ino && NewRow(m, c, Apply(m, t, c).t.inodes[ino])
  {
    NotNew(m, t, c);
    hide SqlTotal, NamesOf, EnsureRemovable, DoWrite, Changed, DoRename, NewNode, Unlinked, ModeFor, ToAttr, MarkInv;
    match c
    case Mkdir(parent, name, perm) => NewNodeRow(m, t, DentryKey(parent, name), Dir, perm, None, EIO, ino);
    case Create(parent, name, perm) => NewNodeRow(m, t, DentryKey(parent, name), File, perm, None, ENOSPC, ino);
    case Symlink(parent, name, target) =>
      NewNodeRow(m, t, DentryKey(parent, name), Kind.Symlink, 0x1FF, Some(target), EIO, ino);
      SymlinkMode(Apply(m, t, c).t.inodes[ino].mode);
    case _ =>
  }

  lemma {:induction false} SymlinkMode(mode: bv16)
    ensures mode & 0xFFF == 0x1FF & 0xFFF && mode & 0xF000 == 0xA000 ==> mode == 0xA1FF
  {
  }

  lemma {:induction false} NotNew(m: Mount, t: Tables, c: Call)
    ensures !c.Mkdir? && !c.Create? && !c.Symlink? ==> Apply(m, t, c).t.inodes.Keys <= t.inodes.Keys
  {
    hide SqlTotal, NamesOf, EnsureRemovable, DoWrite, Changed, DoRename, NewNode, Unlinked, ModeFor, ToAttr;
    match c
    case Unlink(parent, name) =>
      var key := DentryKey(parent, name);
      if key in t.dentries { UnlinkedRows(t, key, t.dentries[key]); }
    case Rmdir(parent, name) =>
      var key := DentryKey(parent, name);
      if key in t.dentries { UnlinkedRows(t, key, t.dentries[key]); }
    case Rename(parent, name, newparent, newname, flags) =>
      RenamedRows(t, DentryKey(parent, name), DentryKey(newparent, newname), flags);
    case Setattr(caller, ino, change) => ChangedTables(t, caller, ino, change);
    case Write(fh, offset, bytes, kp) => WrittenTables(m, t, fh, offset, bytes, kp);
    case _ =>
  }

  lemma {:induction false} UnlinkedRows(t: Tables, key: DentryKey, gone: Ino)
    ensures var after := Unlinked(t, key, gone);
            && after.inodes.Keys <= t.inodes.Keys
            && (forall ino <- after.inodes :: after.inodes[ino] == t.inodes[ino])
            && (forall k <- t.xattrs :: k.ino in after.inodes ==> k in after.xattrs && after.xattrs[k] == t.xattrs[k])
            && (forall k <- after.xattrs :: k in t.xattrs)
  {
    hide NamesOf;
  }

  lemma {:induction false} RenamedRows(t: Tables, key: DentryKey, newkey: DentryKey, flags: RenameFlags)
    ensures var after := DoRename(t, key, newkey, flags).t;
            && after.inodes.Keys <= t.inodes.Keys
            && (forall ino <- after.inodes :: after.inodes[ino] == t.inodes[ino])
            && (forall k <- t.xattrs :: k.ino in after.inodes ==> k in after.xattrs && after.xattrs[k] == t.xattrs[k])
            && (forall k <- after.xattrs :: k in t.xattrs)
  {
    hide NamesOf, EnsureRemovable, Unlinked;
    if newkey in t.dentries { UnlinkedRows(t, newkey, t.dentries[newkey]); }
  }

  /** What a successful call makes of the row of an inode that was there. */
  ghost predicate RowAfter(t: Tables, c: Call, ino: Ino, row: InodeRow)
    requires ino in t.inodes
  {
    var was := t.inodes[ino];
    var changes := c.Setattr? && c.ino == ino;
    && row.kind == was.kind && row.target == was.target
    && row.uid == (if changes && c.change.uid.Some? then c.change.uid.value else was.uid)
    && row.gid == (if changes && c.change.gid.Some? then c.change.gid.value else was.gid)
    && row.size == (if changes && c.change.size.Some? then c.change.size.value
                    else if c.Write? && c.fh == ino && was.size < c.offset + |c.bytes| then c.offset + |c.bytes|
                    else was.size)
    && ModeAfter(t, c, ino, row.mode)
  }

  /** The permissions that a setattr asks for; else without privileges, where they must go; else as before. */
  ghost predicate ModeAfter(t: Tables, c: Call, ino: Ino, mode: bv16)
    requires ino in t.inodes
  {
    var was := t.inodes[ino].mode;
    if c.Setattr? && c.ino == ino && c.change.mode.Some? then
      mode & 0xFFF == c.change.mode.value & 0xFFF && mode & 0xF000 == was & 0xF000
    else if MustDropPriv(t, c, ino) then ModeDropped(was, mode)
    else mode == was
  }

  lemma {:induction false} ChangedRowAfter(t: Tables, caller: nat, ino: Ino, ch: Change)
    requires ino in t.inodes
    ensures RowAfter(t, Setattr(caller, ino, ch), ino, Changed(t, caller, ino, ch).inodes[ino])
  {
    hide Changed, DropSetid, Chmod, ModeAfter, DropsPriv, MustDropPriv;
    ChangedFields(t, caller, ino, ch);
    ChangedMode(t, caller, ino, ch);
  }

  lemma {:induction false} ChangedMode(t: Tables, caller: nat, ino: Ino, ch: Change)
    requires ino in t.inodes
    ensures ModeAfter(t, Setattr(caller, ino, ch), ino, Changed(t, caller, ino, ch).inodes[ino].mode)
  {
    hide Changed, DropSetid, Chmod, ModeDropped, DropsPriv, MustDropPriv;
    ChangedFields(t, caller, ino, ch);
    DropsIff(t, caller, ino, ch);
    if ch.mode.Some? {
      ChmodBits(t.inodes[ino].mode, ch.mode.value);
    } else {
      DropSetidBits(t.inodes[ino].mode);
    }
  }

  lemma {:induction false} ResizedRow(t: Tables, ino: Ino, length: nat)
    requires ino in t.inodes
    ensures Resized(t, ino, length).inodes[ino] == t.inodes[ino].(size := length)
  {
  }

  lemma {:induction false} PrivDroppedRow(t: Tables, ino: Ino)
    requires ino in t.inodes
    ensures PrivDropped(t, ino).inodes[ino] == t.inodes[ino].(mode := DropSetid(t.inodes[ino].mode))
  {
    hide DropSetid;
  }

  lemma {:induction false} ChangedIs(t: Tables, caller: nat, ino: Ino, ch: Change)
    requires ino in t.inodes
    ensures var row := ChangedRow(t.inodes[ino], ch);
            var sized := if ch.size.Some? then row.(size := ch.size.value) else row;
            Changed(t, caller, ino, ch).inodes[ino] ==
            if DropsPriv(t.inodes[ino], caller, ch) then sized.(mode := DropSetid(sized.mode)) else sized
  {
    hide Resized, PrivDropped, ChangedRow, DropsPriv, DropSetid;
    var owned := WithRow(t, ino, ChangedRow(t.inodes[ino], ch));
    var sized := if ch.size.Some? then Resized(owned, ino, ch.size.value) else owned;
    if ch.size.Some? { ResizedRow(owned, ino, ch.size.value); }
    PrivDroppedRow(sized, ino);
  }

  lemma {:induction false} ChangedFields(t: Tables, caller: nat, ino: Ino, ch: Change)
    requires ino in t.inodes
    ensures var was, row := t.inodes[ino], Changed(t, caller, ino, ch).inodes[ino];
            && row.kind == was.kind && row.target == was.target
            && row.uid == (if ch.uid.Some? then ch.uid.value else was.uid)
            && row.gid == (if ch.gid.Some? then ch.gid.value else was.gid)
            && row.size == (if ch.size.Some? then ch.size.value else was.size)
            && (ch.mode.Some? ==> row.mode == Chmod(was.mode, ch.mode.value))
            && (ch.mode.None? ==> row.mode == if DropsPriv(was, caller, ch) then DropSetid(was.mode) else was.mode)
  {
    hide DropSetid, Chmod, Changed;
    ChangedIs(t, caller, ino, ch);
  }

  lemma {:induction false} DropsIff(t: Tables, caller: nat, ino: Ino, ch: Change)
    requires ino in t.inodes
    ensures DropsPriv(t.inodes[ino], caller, ch) <==> MustDropPriv(t, Setattr(caller, ino, ch), ino)
  {
  }

  lemma {:induction false} WrittenRowAfter(m: Mount, t: Tables, ino: Ino, offset: nat, bytes: Bytes, kp: bool)
    requires DoWrite(m, t, ino, offset, bytes, kp).reply.Written?
    ensures ino in t.inodes && RowAfter(t, Write(ino, offset, bytes, kp), ino, DoWrite(m, t, ino, offset, bytes, kp).t.inodes[ino])
  {
    hide DropSetid, WriteBlocks, ModeDropped, SqlTotal;
    DropSetidBits(t.inodes[ino].mode);
  }

  lemma {:induction false} SameRowAfter(t: Tables, c: Call, ino: Ino)
    requires ino in t.inodes && !(c.Setattr? && c.ino == ino) && !(c.Write? && c.fh == ino)
    ensures RowAfter(t, c, ino, t.inodes[ino])
  {
  }

  /** Kind, target, owner, group, size and mode of every inode that survives a call. */
  lemma {:induction false} CallKeptRow(m: Mount, t: Tables, c: Call, ino: Ino)
    requires MarkInv(t.inodes, t.mark) && ino in t.inodes && ino in Apply(m, t, c).t.inodes
    ensures var o := Apply(m, t, c);
            if o.reply.Err? then o.t.inodes[ino] == t.inodes[ino] else RowAfter(t, c, ino, o.t.inodes[ino])
  {
    if Apply(m, t, c).reply.Err? { ErrorChangesNothing(m, t, c); return; }
    assert ino != t.mark + 1;
    if !(c.Setattr? && c.ino == ino) && !(c.Write? && c.fh == ino) { SameRowAfter(t, c, ino); }
    hide SqlTotal, NamesOf, EnsureRemovable, DoWrite, Changed, DoRename, NewNode, Unlinked, ModeFor, ToAttr, MarkInv, RowAfter;
    match c
    case Mkdir(parent, name, perm) => NewNodeRow(m, t, DentryKey(parent, name), Dir, perm, None, EIO, ino);
    case Create(parent, name, perm) => NewNodeRow(m, t, DentryKey(parent, name), File, perm, None, ENOSPC, ino);
    case Symlink(parent, name, target) =>
      NewNodeRow(m, t, DentryKey(parent, name), Kind.Symlink, 0x1FF, Some(target), EIO, ino);
    case Unlink(parent, name) => UnlinkedRows(t, DentryKey(parent, name), t.dentries[DentryKey(parent, name)]);
    case Rmdir(parent, name) => UnlinkedRows(t, DentryKey(parent, name), t.dentries[DentryKey(parent, name)]);
    case Rename(parent, name, newparent, newname, flags) =>
      RenamedRows(t, DentryKey(parent, name), DentryKey(newparent, newname), flags);
    case Setattr(caller, i, change) =>
      ChangedTables(t, caller, i, change);
      ChangedRowAfter(t, caller, i, change);
    case Write(fh, offset, bytes, kp) =>
      WrittenTables(m, t, fh, offset, bytes, kp);
      WriteSucceeds(m, t, fh, offset, bytes, kp);
      WrittenRowAfter(m, t, fh, offset, bytes, kp);
    case _ =>
  }

  lemma {:induction false} WriteSucceeds(m: Mount, t: Tables, ino: Ino, offset: nat, bytes: Bytes, kp: bool)
    ensures var r := DoWrite(m, t, ino, offset, bytes, kp).reply; !r.Err? ==> r.Written?
  {
    hide WriteBlocks, SqlTotal;
  }

  // --- attributes -----------------------------------------------------------------------

  ghost function Attr(t: Tables, key: XattrKey): Option<Bytes> {
    if key in t.xattrs then Some(t.xattrs[key]) else None
  }

  /** What a successful call makes of an attribute of an inode that is live after it. */
  ghost function AttrAfter(t: Tables, c: Call, key: XattrKey, was: Option<Bytes>): Option<Bytes> {
    if c.SetXattr? && key == XattrKey(c.ino, c.name) then Some(c.value)
    else if c.RemoveXattr? && key == XattrKey(c.ino, c.name) then None
    else if key.ino in t.inodes && MustDropPriv(t, c, key.ino) && IsCapability(key.name) then None
    else was
  }

  ghost predicate IsCapability(name: Name) {
    var text := "security.capability";
    |name| == |text| && forall i :: 0 <= i < |text| ==> name[i] as int == text[i] as int
  }

  lemma {:induction false} CapabilityIs(name: Name)
    ensures IsCapability(name) <==> name == CAPABILITY
  {
    CapabilityText();
    SameText(name, CAPABILITY, "security.capability");
  }

  lemma {:induction false} CapabilityText()
    ensures IsCapability(CAPABILITY)
  {
    CapabilityFront();
    CapabilityBack();
  }

  lemma {:induction false} CapabilityFront()
    ensures |CAPABILITY| == |"security.capability"|
    ensures forall i :: 0 <= i < 10 ==> CAPABILITY[i] as int == "security.capability"[i] as int
  {
  }

  lemma {:induction false} CapabilityBack()
    ensures |CAPABILITY| == |"security.capability"| == 19
    ensures forall i :: 10 <= i < 19 ==> CAPABILITY[i] as int == "security.capability"[i] as int
  {
  }

  lemma {:induction false} SameText(a: Name, b: Name, text: string)
    requires |b| == |text| && forall i :: 0 <= i < |text| ==> b[i] as int == text[i] as int
    ensures a == b <==> |a| == |text| && forall i :: 0 <= i < |text| ==> a[i] as int == text[i] as int
  {
    if |a| == |text| && forall i :: 0 <= i < |text| ==> a[i] as int == text[i] as int {
      forall i | 0 <= i < |a| ensures a[i] == b[i] {
        assert a[i] as int == text[i] as int == b[i] as int;
      }
    }
  }

  /** Calls about names leave the attributes of what stays alone. */
  lemma {:induction false} KeptAttrs(m: Mount, t: Tables, c: Call, key: XattrKey)
    requires !Apply(m, t, c).reply.Err? && (key in t.xattrs ==> key.ino in Apply(m, t, c).t.inodes)
    requires !c.Setattr? && !c.Write? && !c.SetXattr? && !c.RemoveXattr?
    ensures Attr(Apply(m, t, c).t, key) == Attr(t, key)
  {
    hide SqlTotal, NamesOf, EnsureRemovable, DoRename, Unlinked, ModeFor, ToAttr, NewNode;
    match c
    case Mkdir(parent, name, perm) => NewNodeAttrs(m, t, DentryKey(parent, name), Dir, ModeFor(Dir, perm), None, EIO);
    case Create(parent, name, perm) => NewNodeAttrs(m, t, DentryKey(parent, name), File, ModeFor(File, perm), None, ENOSPC);
    case Symlink(parent, name, target) =>
      NewNodeAttrs(m, t, DentryKey(parent, name), Kind.Symlink, ModeFor(Kind.Symlink, 0x1FF), Some(target), EIO);
    case Link(_, _, _) =>
    case Unlink(parent, name) => UnlinkedRows(t, DentryKey(parent, name), t.dentries[DentryKey(parent, name)]);
    case Rmdir(parent, name) => UnlinkedRows(t, DentryKey(parent, name), t.dentries[DentryKey(parent, name)]);
    case Rename(parent, name, newparent, newname, flags) =>
      RenamedRows(t, DentryKey(parent, name), DentryKey(newparent, newname), flags);
  }

  lemma {:induction false} ChangedAttrs(m: Mount, t: Tables, c: Call, key: XattrKey)
    requires !Apply(m, t, c).reply.Err? && (c.Setattr? || c.Write?)
    ensures Attr(Apply(m, t, c).t, key) == AttrAfter(t, c, key, Attr(t, key))
  {
    hide SqlTotal, DoWrite, Changed, ToAttr, DropsPriv, IsCapability, MustDropPriv;
    CapabilityIs(key.name);
    if c.Setattr? {
      ChangedTables(t, c.caller, c.ino, c.change);
      DropsIff(t, c.caller, c.ino, c.change);
    } else {
      WrittenTables(m, t, c.fh, c.offset, c.bytes, c.killPriv);
    }
    if key.ino in t.inodes { DropsOnlyThat(t, c, key.ino); }
  }

  lemma {:induction false} DropsOnlyThat(t: Tables, c: Call, ino: Ino)
    requires ino in t.inodes
    ensures MustDropPriv(t, c, ino) ==> (c.Setattr? && c.ino == ino) || (c.Write? && c.fh == ino && c.killPriv)
    ensures c.Write? && c.fh == ino ==> (MustDropPriv(t, c, ino) <==> c.killPriv)
  {
  }

  lemma {:induction false} XattrCalls(m: Mount, t: Tables, c: Call, key: XattrKey)
    requires !Apply(m, t, c).reply.Err? && (c.SetXattr? || c.RemoveXattr?)
    ensures Attr(Apply(m, t, c).t, key) == AttrAfter(t, c, key, Attr(t, key))
  {
    hide IsCapability;
  }

  /** A call changes an attribute by setting or removing it, by dropping the privileges of its inode, or by
      taking the inode away, and in no other way; one that fails changes none. */
  lemma {:induction false} CallAttrs(m: Mount, t: Tables, c: Call, key: XattrKey)
    requires Inv(t) && Legal(t, c)
    ensures var o := Apply(m, t, c);
            Attr(o.t, key) == if o.reply.Err? then Attr(t, key)
                              else if key.ino !in o.t.inodes then None
                              else AttrAfter(t, c, key, Attr(t, key))
  {
    hide Inv, Legal, IsCapability, Apply;
    CallKeepsInv(m, t, c);
    if key in Apply(m, t, c).t.xattrs { OwnersLive(Apply(m, t, c).t, key); }
    if Apply(m, t, c).reply.Err? {
      ErrorChangesNothing(m, t, c);
    } else if key.ino in Apply(m, t, c).t.inodes {
      if c.Setattr? || c.Write? {
        ChangedAttrs(m, t, c, key);
      } else if c.SetXattr? || c.RemoveXattr? {
        XattrCalls(m, t, c, key);
      } else {
        KeptAttrs(m, t, c, key);
      }
    }
  }

  lemma {:induction false} NewNodeAttrs(m: Mount, t: Tables, key: DentryKey, kind: Kind, mode: bv16,
                                        target: Option<Name>, full: Errno)
    ensures NewNode(m, t, key, kind, mode, target, full).t.xattrs == t.xattrs
  {
    hide ToAttr;
  }

  lemma {:induction false} OwnersLive(t: Tables, key: XattrKey)
    requires Inv(t) && key in t.xattrs
    ensures key.ino in t.inodes
  {
  }

  /** The value that the successful calls of a run describe. */
  ghost function AttrHistory(s: seq<Tables>, es: seq<Event>, key: XattrKey, i: nat): Option<Bytes>
    requires i < |s| == |es| + 1
  {
    if i == 0 then Attr(s[0], key)
    else if key.ino !in s[i].inodes then None
    else if Apply(es[i - 1].m, s[i - 1], es[i - 1].c).reply.Err? then AttrHistory(s, es, key, i - 1)
    else AttrAfter(s[i - 1], es[i - 1].c, key, AttrHistory(s, es, key, i - 1))
  }

  /** After any run every attribute has exactly the value its history says, or is not there. */
  lemma {:induction false} RunAttrs(start: Tables, maxSize: nat, s: seq<Tables>, es: seq<Event>, key: XattrKey, i: nat)
    requires Run(start, maxSize, s, es) && Inv(start) && i < |s|
    ensures Attr(s[i], key) == AttrHistory(s, es, key, i)
  {
    hide Inv, Legal, Apply, AttrAfter;
    if i == 0 {
    } else {
      RunAttrs(start, maxSize, s, es, key, i - 1);
      RunKeepsInv(start, maxSize, s, es, i - 1);
      RunKeepsInv(start, maxSize, s, es, i);
      assert s[i] == s[i - 1 + 1];
      CallAttrs(es[i - 1].m, s[i - 1], es[i - 1].c, key);
      if key in s[i].xattrs { OwnersLive(s[i], key); }
    }
  }
}
