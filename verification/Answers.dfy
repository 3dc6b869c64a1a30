/** What each call answers, and exactly when: the errors in the order in which they are tested, and the attributes of a success. */
module Answers {
  import opened Common
  import opened BlockStore
  import opened Schema
  import opened Tree
  import opened Calls
  import opened Invariant
  import opened Runs
  import opened Quota

  // --- the ceiling -------------------------------------------------------------------

  /** There is a ceiling, 63 bits hold the sum of all sizes, and `after`, what the sum would become, is past it. */
  ghost predicate Passes(m: Mount, t: Tables, after: int) {
    m.maxSize != 0 && TotalSize(t.inodes) <= 0x7FFF_FFFF_FFFF_FFFF && after > m.maxSize
  }

  // --- calls that make an inode ---------------------------------------------------------

  /** A new inode and its attributes, or `full` where the numbers are used up. */
  ghost predicate Made(o: Outcome, t: Tables, full: Errno) {
    if t.mark >= 0x7FFF_FFFF_FFFF_FFFF then o.reply == Err(full)
    else o.reply.Entry? && Describes(o.reply.attr, o.t, t.mark + 1)
  }

  lemma {:induction false} NewNodeMade(m: Mount, t: Tables, key: DentryKey, kind: Kind, mode: bv16,
                                       target: Option<Name>, full: Errno)
    ensures Made(NewNode(m, t, key, kind, mode, target, full), t, full)
  {
    hide ToAttr, Describes;
    if t.mark < I64_MAX { AttrDescribes(NewNode(m, t, key, kind, mode, target, full).t, t.mark + 1); }
  }

  lemma {:induction false} MkdirAnswer(m: Mount, t: Tables, parent: Ino, name: Name, perm: bv16)
    ensures var o := Apply(m, t, Mkdir(parent, name, perm));
            if DentryKey(parent, name) in t.dentries then o.reply == Err(EEXIST) else Made(o, t, EIO)
  {
    hide NewNode, ModeFor, Made;
    NewNodeMade(m, t, DentryKey(parent, name), Dir, ModeFor(Dir, perm), None, EIO);
  }

  lemma {:induction false} CreateAnswer(m: Mount, t: Tables, parent: Ino, name: Name, perm: bv16)
    ensures var o := Apply(m, t, Create(parent, name, perm));
            if DentryKey(parent, name) in t.dentries then o.reply == Err(EEXIST)
            else if Passes(m, t, TotalSize(t.inodes) + 1) then o.reply == Err(ENOSPC)
            else Made(o, t, ENOSPC)
  {
    hide NewNode, ModeFor, Made, TotalSize;
    NewNodeMade(m, t, DentryKey(parent, name), File, ModeFor(File, perm), None, ENOSPC);
  }

  lemma {:induction false} SymlinkAnswer(m: Mount, t: Tables, parent: Ino, name: Name, target: Name)
    ensures var o := Apply(m, t, Call.Symlink(parent, name, target));
            if DentryKey(parent, name) in t.dentries then o.reply == Err(EEXIST)
            else if Passes(m, t, TotalSize(t.inodes) + |target|) then o.reply == Err(ENOSPC)
            else Made(o, t, EIO)
  {
    hide NewNode, ModeFor, Made, TotalSize;
    NewNodeMade(m, t, DentryKey(parent, name), Kind.Symlink, ModeFor(Kind.Symlink, 0x1FF), Some(target), EIO);
  }

  // --- calls about names ------------------------------------------------------------------

  /** A link to a file with n names answers that it has n + 1, in 32 bits. */
  lemma {:induction false} LinkAnswer(m: Mount, t: Tables, ino: Ino, parent: Ino, name: Name)
    ensures var o := Apply(m, t, Link(ino, parent, name));
            if ino !in t.inodes then o.reply == Err(ENOENT)
            else if t.inodes[ino].kind == Dir then o.reply == Err(EPERM)
            else if DentryKey(parent, name) in t.dentries then o.reply == Err(EEXIST)
            else
              && o.reply.Entry? && Describes(o.reply.attr, o.t, ino)
              && o.reply.attr.nlink == (|set k | k in t.dentries && t.dentries[k] == ino| + 1) % 0x1_0000_0000
  {
    hide ToAttr, Describes;
    var key := DentryKey(parent, name);
    if ino in t.inodes && t.inodes[ino].kind != Dir && key !in t.dentries {
      var after := t.(dentries := t.dentries[key := ino]);
      AttrDescribes(after, ino);
      LinkedCount(t, key, ino);
    }
  }

  lemma {:induction false} LinkedCount(t: Tables, key: DentryKey, ino: Ino)
    requires ino in t.inodes && t.inodes[ino].kind != Dir && key !in t.dentries
    ensures forall attr :: Describes(attr, t.(dentries := t.dentries[key := ino]), ino) ==>
              attr.nlink == (|set k | k in t.dentries && t.dentries[k] == ino| + 1) % 0x1_0000_0000
  {
    var after := t.dentries[key := ino];
    assert (set k | k in after && after[k] == ino) == (set k | k in t.dentries && t.dentries[k] == ino) + {key};
  }

  lemma {:induction false} UnlinkAnswer(m: Mount, t: Tables, parent: Ino, name: Name)
    ensures Apply(m, t, Unlink(parent, name)).reply == if DentryKey(parent, name) in t.dentries then Done else Err(ENOENT)
  {
    hide Unlinked;
  }

  ghost predicate Empty(t: Tables, ino: Ino) {
    forall k <- t.dentries :: k.parent != ino
  }

  lemma {:induction false} RemovableAnswer(t: Tables, key: DentryKey)
    requires Inv(t) && key in t.dentries
    ensures t.dentries[key] != ROOT_INO
    ensures EnsureRemovable(t, t.dentries[key]) == if Empty(t, t.dentries[key]) then None else Some(ENOTEMPTY)
  {
    var ino := t.dentries[key];
    assert ino in t.inodes && ino != ROOT_INO;
    NoChildrenIfEmpty(t, ino);
    if !IsDir(t.inodes, ino) { NoChildren(t, ino); }
    hide Inv, ChildrenOf;
  }

  lemma {:induction false} NoChildrenIfEmpty(t: Tables, ino: Ino)
    ensures Empty(t, ino) <==> ChildrenOf(t.dentries, ino) == {}
  {
    if k :| k in t.dentries && k.parent == ino {
      assert k in ChildrenOf(t.dentries, ino);
    }
  }

  /** In a valid container rmdir is never refused as busy: no name leads to the root. */
  lemma {:induction false} RmdirAnswer(m: Mount, t: Tables, parent: Ino, name: Name)
    requires Inv(t)
    ensures var key := DentryKey(parent, name);
            Apply(m, t, Rmdir(parent, name)).reply ==
            if key !in t.dentries then Err(ENOENT) else if Empty(t, t.dentries[key]) then Done else Err(ENOTEMPTY)
  {
    hide Inv, EnsureRemovable, Unlinked, Empty;
    if DentryKey(parent, name) in t.dentries { RemovableAnswer(t, DentryKey(parent, name)); }
  }

  lemma {:induction false} RenameAnswer(m: Mount, t: Tables, parent: Ino, name: Name, newparent: Ino, newname: Name,
                                        flags: RenameFlags)
    requires Inv(t)
    ensures var key, newkey := DentryKey(parent, name), DentryKey(newparent, newname);
            Apply(m, t, Rename(parent, name, newparent, newname, flags)).reply ==
            if key !in t.dentries then Err(ENOENT)
            else if flags.exchange || flags.whiteout then Err(EINVAL)
            else if newkey !in t.dentries then Done
            else if flags.noreplace then Err(EEXIST)
            else if newkey == key then Done
            else if t.dentries[newkey] == t.dentries[key] then Err(EIO)
            else if Empty(t, t.dentries[newkey]) then Done
            else Err(ENOTEMPTY)
  {
    hide Inv, EnsureRemovable, Unlinked, Empty;
    if DentryKey(newparent, newname) in t.dentries { RemovableAnswer(t, DentryKey(newparent, newname)); }
  }

  // --- setattr and write ----------------------------------------------------------------------

  lemma {:induction false} SetattrAnswer(m: Mount, t: Tables, caller: nat, ino: Ino, ch: Change)
    ensures var o := Apply(m, t, Setattr(caller, ino, ch));
            if ino !in t.inodes then o.reply == Err(ENOENT)
            else if ch.size.Some? && ch.size.value > 0x7FFF_FFFF_FFFF_FFFF then o.reply == Err(EFBIG)
            else if ch.size.Some? && ch.size.value > t.inodes[ino].size
                    && Passes(m, t, TotalSize(t.inodes) - t.inodes[ino].size + ch.size.value) then o.reply == Err(ENOSPC)
            else o.reply.Entry? && Describes(o.reply.attr, o.t, ino)
  {
    hide ToAttr, Describes, Changed, TotalSize;
    if ino in t.inodes { AttrDescribes(Changed(t, caller, ino, ch), ino); }
  }

  lemma {:induction false} WriteAnswer(m: Mount, t: Tables, fh: Ino, offset: nat, bytes: Bytes, kp: bool)
    ensures Apply(m, t, Write(fh, offset, bytes, kp)).reply ==
            if offset + |bytes| > 0x7FFF_FFFF_FFFF_FFFF then Err(EFBIG)
            else if fh !in t.inodes then Err(ENOENT)
            else if offset + |bytes| > t.inodes[fh].size
                    && Passes(m, t, TotalSize(t.inodes) - t.inodes[fh].size + offset + |bytes|) then Err(ENOSPC)
            else Written(|bytes| % 0x1_0000_0000)
  {
    hide Overwritten, PrivDropped, TotalSize;
  }

  // --- attributes --------------------------------------------------------------------------------

  lemma {:induction false} SetXattrAnswer(m: Mount, t: Tables, ino: Ino, name: Name, value: Bytes, create: bool, replace: bool)
    ensures Apply(m, t, SetXattr(ino, name, value, create, replace)).reply ==
            if !(1 <= |name| <= 255) then Err(ERANGE)
            else if |value| > 0x1_0000 then Err(E2BIG)
            else if ino !in t.inodes then Err(ENOENT)
            else if XattrKey(ino, name) in t.xattrs then if create then Err(EEXIST) else Done
            else if replace then Err(ENODATA) else Done
  {
  }

  lemma {:induction false} RemoveXattrAnswer(m: Mount, t: Tables, ino: Ino, name: Name)
    ensures Apply(m, t, RemoveXattr(ino, name)).reply ==
            if XattrKey(ino, name) in t.xattrs then Done else Err(ENODATA)
  {
  }

  // --- a ceiling refuses what would pass it, and nothing else -------------------------------------

  /** In a container within a ceiling of 63 bits a write is refused for space if and only if the file it
      leaves would take the sum past the ceiling; nothing that fits is refused. */
  lemma {:induction false} WriteRefusedIff(m: Mount, t: Tables, fh: Ino, offset: nat, bytes: Bytes, kp: bool)
    requires 0 < m.maxSize <= I64_MAX && TotalSize(t.inodes) <= m.maxSize
    requires fh in t.inodes && offset + |bytes| <= I64_MAX
    ensures var reply := Apply(m, t, Write(fh, offset, bytes, kp)).reply;
            var after := TotalSize(t.inodes) - t.inodes[fh].size
                         + if t.inodes[fh].size < offset + |bytes| then offset + |bytes| else t.inodes[fh].size;
            reply == if after > m.maxSize then Err(ENOSPC) else Written(|bytes| % TWO_TO_THE_32)
  {
    hide TotalSize, Apply;
    WriteAnswer(m, t, fh, offset, bytes, kp);
  }

  lemma {:induction false} SetattrRefusedIff(m: Mount, t: Tables, caller: nat, ino: Ino, ch: Change)
    requires 0 < m.maxSize <= I64_MAX && TotalSize(t.inodes) <= m.maxSize
    requires ino in t.inodes && (ch.size.Some? ==> ch.size.value <= I64_MAX)
    ensures var reply := Apply(m, t, Setattr(caller, ino, ch)).reply;
            var after := if ch.size.Some? then TotalSize(t.inodes) - t.inodes[ino].size + ch.size.value
                         else TotalSize(t.inodes);
            if after > m.maxSize then reply == Err(ENOSPC) else reply.Entry?
  {
    hide TotalSize, Apply, Describes;
    SetattrAnswer(m, t, caller, ino, ch);
  }

  lemma {:induction false} SymlinkRefusedIff(m: Mount, t: Tables, parent: Ino, name: Name, target: Name)
    requires 0 < m.maxSize <= I64_MAX && TotalSize(t.inodes) <= m.maxSize
    requires DentryKey(parent, name) !in t.dentries && t.mark < I64_MAX
    ensures var reply := Apply(m, t, Call.Symlink(parent, name, target)).reply;
            if TotalSize(t.inodes) + |target| > m.maxSize then reply == Err(ENOSPC) else reply.Entry?
  {
    hide TotalSize, Apply, Describes;
    SymlinkAnswer(m, t, parent, name, target);
  }

  /** A create adds no byte, and is refused if and only if there is room for none. */
  lemma {:induction false} CreateRefusedIff(m: Mount, t: Tables, parent: Ino, name: Name, perm: bv16)
    requires 0 < m.maxSize <= I64_MAX && TotalSize(t.inodes) <= m.maxSize
    requires DentryKey(parent, name) !in t.dentries && t.mark < I64_MAX
    ensures var reply := Apply(m, t, Create(parent, name, perm)).reply;
            if TotalSize(t.inodes) == m.maxSize then reply == Err(ENOSPC) else reply.Entry?
  {
    hide TotalSize, Apply, Describes;
    CreateAnswer(m, t, parent, name, perm);
  }

  /** Without a ceiling only a create can meet ENOSPC, when there are no more numbers. */
  lemma {:induction false} NoCeiling(m: Mount, t: Tables, c: Call)
    requires m.maxSize == 0 && Inv(t)
    ensures Apply(m, t, c).reply == Err(ENOSPC) ==> c.Create? && t.mark >= I64_MAX
  {
    hide TotalSize, Apply, Describes, Inv, Empty;
    match c
    case Mkdir(parent, name, perm) => MkdirAnswer(m, t, parent, name, perm);
    case Create(parent, name, perm) => CreateAnswer(m, t, parent, name, perm);
    case Symlink(parent, name, target) => SymlinkAnswer(m, t, parent, name, target);
    case Link(ino, parent, name) => LinkAnswer(m, t, ino, parent, name);
    case Unlink(parent, name) => UnlinkAnswer(m, t, parent, name);
    case Rmdir(parent, name) => RmdirAnswer(m, t, parent, name);
    case Rename(parent, name, newparent, newname, flags) => RenameAnswer(m, t, parent, name, newparent, newname, flags);
    case Setattr(caller, ino, change) => SetattrAnswer(m, t, caller, ino, change);
    case Write(fh, offset, bytes, kp) => WriteAnswer(m, t, fh, offset, bytes, kp);
    case SetXattr(ino, name, value, create, replace) => SetXattrAnswer(m, t, ino, name, value, create, replace);
    case RemoveXattr(ino, name) => RemoveXattrAnswer(m, t, ino, name);
  }

  /** In every state of every run of a container created with such a ceiling, a write is refused for space
      exactly when it would pass the ceiling. */
  lemma {:induction false} ReachableWrite(creator: Mount, m: Mount, t: Tables, fh: Ino, offset: nat, bytes: Bytes, kp: bool)
    requires 0 < m.maxSize <= I64_MAX && Reachable(Fresh(creator), m.maxSize, t)
    requires fh in t.inodes && offset + |bytes| <= I64_MAX
    ensures Apply(m, t, Write(fh, offset, bytes, kp)).reply == Err(ENOSPC) <==>
            TotalSize(t.inodes) - t.inodes[fh].size + Max(t.inodes[fh].size, offset + |bytes|) > m.maxSize
  {
    hide TotalSize, Apply, Fresh, Legal;
    var s, es :| Run(Fresh(creator), m.maxSize, s, es) && s[|s| - 1] == t;
    FreshInv(creator);
    FreshTotal(creator);
    RunHoldsQuota(Fresh(creator), m.maxSize, s, es, |s| - 1);
    WriteRefusedIff(m, t, fh, offset, bytes, kp);
  }
}
