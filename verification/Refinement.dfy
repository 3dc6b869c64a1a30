/** The container refines a set of flat files: blocks, trims and missing rows never show. */
module Refinement {
  import opened Common
  import opened FlatFile
  import opened BlockStore
  import opened Schema
  import opened Tree
  import opened Calls
  import opened Invariant
  import opened Runs

  /** The content of a live inode as one sequence of bytes. */
  ghost function Content(t: Tables, ino: Ino): Bytes
    requires ino in t.inodes
  {
    Flat(t.data, ino, t.inodes[ino].size)
  }

  /** What a read through a handle answers: nothing (ENOENT) once the inode is gone. */
  ghost function ReadReply(t: Tables, fh: Ino, offset: nat, size: nat): Option<Bytes> {
    if fh in t.inodes then Some(Slice(Content(t, fh), offset, size)) else None
  }

  /** What a successful call makes of the content `f` of `ino`, said without blocks. */
  function Effect(c: Call, ino: Ino, f: Bytes): Bytes {
    match c
    case Write(fh, offset, bytes, _) => if fh == ino then Overwrite(f, offset, bytes) else f
    case Setattr(_, i, change) => if i == ino && change.size.Some? then Resize(f, change.size.value) else f
    case _ => f
  }

  /** What an inode created by a call holds. (The bytes of a symlink are its target column, not blocks.) */
  function Initial(c: Call): Bytes {
    if c.Symlink? then Zeros(|c.target|) else []
  }

  // --- one call ----------------------------------------------------------------

  lemma {:induction false} SameRows(t: Tables, after: Tables, ino: Ino)
    requires ino in t.inodes && ino in after.inodes && t.inodes[ino].size == after.inodes[ino].size
    requires forall k: BlockKey :: k.ino == ino ==> (k in t.data <==> k in after.data) && (k in t.data ==> t.data[k] == after.data[k])
    ensures Content(after, ino) == Content(t, ino)
  {
    hide BlockNo, BlockOff;
    forall i: nat ensures ByteAt(after.data, ino, i) == ByteAt(t.data, ino, i) {
      assert BlockKey(ino, BlockNo(i)).ino == ino;
    }
  }

  lemma {:induction false} UnlinkContent(t: Tables, key: DentryKey, gone: Ino, ino: Ino)
    requires ino in t.inodes && ino in Unlinked(t, key, gone).inodes
    ensures Content(Unlinked(t, key, gone), ino) == Content(t, ino)
  {
    hide NamesOf, Content;
    SameRows(t, Unlinked(t, key, gone), ino);
  }

  lemma {:induction false} NewContent(m: Mount, t: Tables, key: DentryKey, kind: Kind, mode: bv16,
                                      target: Option<Name>, full: Errno, ino: Ino)
    requires Inv(t)
    ensures var after := NewNode(m, t, key, kind, mode, target, full).t;
            ino in after.inodes ==>
              Content(after, ino) == if ino in t.inodes then Content(t, ino)
                                     else Zeros(if target.Some? then |target.value| else 0)
  {
    hide BlockNo, BlockOff, TreeInv, RowsInv, XattrsInv, BlocksFit, NamesOf;
    var after := NewNode(m, t, key, kind, mode, target, full).t;
    if ino in t.inodes {
      SameRows(t, after, ino);
    } else if ino in after.inodes {
      forall i: nat ensures ByteAt(after.data, ino, i) == 0 {
        assert BlockKey(ino, BlockNo(i)) !in t.data;
      }
    }
  }

  lemma {:induction false} ChangedParts(t: Tables, caller: nat, target: Ino, ch: Change)
    requires target in t.inodes
    ensures var after, row := Changed(t, caller, target, ch), t.inodes[target];
            && after.data == (if ch.size.Some? then Truncated(t.data, target, ch.size.value) else t.data)
            && after.inodes == t.inodes[target := after.inodes[target]]
            && after.inodes[target].size == if ch.size.Some? then ch.size.value else row.size
  {
    hide Truncated, DropSetid, Chmod;
  }

  lemma {:induction false} ChangedContent(t: Tables, caller: nat, target: Ino, ch: Change, ino: Ino)
    requires Inv(t) && target in t.inodes && ino in t.inodes
    ensures Content(Changed(t, caller, target, ch), ino) ==
            if ino == target && ch.size.Some? then Resize(Content(t, ino), ch.size.value) else Content(t, ino)
  {
    ChangedParts(t, caller, target, ch);
    assert BlocksFit(t.data, target, t.inodes[target].size);
    hide Flat, Truncated, Resize, Changed, Inv, BlocksFit;
    if ch.size.Some? {
      TruncateRefines(t.data, target, t.inodes[target].size, ch.size.value);
    }
  }

  lemma {:induction false} WriteParts(m: Mount, t: Tables, fh: Ino, offset: nat, bytes: Bytes, kp: bool)
    requires DoWrite(m, t, fh, offset, bytes, kp).reply.Written?
    ensures var after := DoWrite(m, t, fh, offset, bytes, kp).t;
            && fh in t.inodes
            && after.data == WriteBlocks(t.data, fh, offset, bytes, 0)
            && after.inodes == t.inodes[fh := after.inodes[fh]]
            && after.inodes[fh].size == Max(t.inodes[fh].size, offset + |bytes|)
  {
    hide WriteBlocks, DropSetid, SqlTotal;
  }

  lemma {:induction false} WriteContent(m: Mount, t: Tables, fh: Ino, offset: nat, bytes: Bytes, kp: bool, ino: Ino)
    requires Inv(t) && ino in t.inodes && DoWrite(m, t, fh, offset, bytes, kp).reply.Written?
    ensures Content(DoWrite(m, t, fh, offset, bytes, kp).t, ino) ==
            if ino == fh then Overwrite(Content(t, ino), offset, bytes) else Content(t, ino)
  {
    WriteParts(m, t, fh, offset, bytes, kp);
    assert BlocksFit(t.data, fh, t.inodes[fh].size);
    hide Flat, WriteBlocks, Overwrite, DoWrite, Inv, BlocksFit;
    WriteRefines(t.data, fh, t.inodes[fh].size, offset, bytes);
  }

  lemma {:induction false} RenameContent(t: Tables, key: DentryKey, newkey: DentryKey, flags: RenameFlags, ino: Ino)
    requires ino in DoRename(t, key, newkey, flags).t.inodes
    ensures ino in t.inodes && Content(DoRename(t, key, newkey, flags).t, ino) == Content(t, ino)
  {
    hide NamesOf, ChildrenOf, Content;
    SameRows(t, DoRename(t, key, newkey, flags).t, ino);
  }

  /** A call does to every live inode's bytes what it does to the flat file, and nothing to the others. */
  lemma {:induction false} CallRefines(m: Mount, t: Tables, c: Call, ino: Ino)
    requires Inv(t) && Legal(t, c) && ino in Apply(m, t, c).t.inodes
    ensures Content(Apply(m, t, c).t, ino) ==
            if ino !in t.inodes then Initial(c)
            else if Apply(m, t, c).reply.Err? then Content(t, ino)
            else Effect(c, ino, Content(t, ino))
  {
    hide Inv, Legal, Content, Overwrite, Resize, NewNode, Changed, SqlTotal, DoWrite, DoRename, Unlinked, EnsureRemovable;
    match c
    case Mkdir(parent, name, perm) =>
      if DentryKey(parent, name) !in t.dentries {
        NewContent(m, t, DentryKey(parent, name), Dir, ModeFor(Dir, perm), None, EIO, ino);
      }
      NewReply(m, t, DentryKey(parent, name), Dir, ModeFor(Dir, perm), None, EIO);
    case Create(parent, name, perm) =>
      if DentryKey(parent, name) !in t.dentries {
        NewContent(m, t, DentryKey(parent, name), File, ModeFor(File, perm), None, ENOSPC, ino);
      }
    case Symlink(parent, name, target) =>
      if DentryKey(parent, name) !in t.dentries {
        NewContent(m, t, DentryKey(parent, name), Kind.Symlink, ModeFor(Kind.Symlink, 0x1FF), Some(target), EIO, ino);
      }
    case Unlink(parent, name) =>
      var key := DentryKey(parent, name);
      if key in t.dentries {
        UnlinkedInodes(t, key, t.dentries[key]);
        UnlinkContent(t, key, t.dentries[key], ino);
      }
    case Rmdir(parent, name) =>
      var key := DentryKey(parent, name);
      if key in t.dentries && EnsureRemovable(t, t.dentries[key]).None? {
        UnlinkedInodes(t, key, t.dentries[key]);
        if ino in Unlinked(t, key, t.dentries[key]).inodes { UnlinkContent(t, key, t.dentries[key], ino); }
      }
    case Rename(parent, name, newparent, newname, flags) =>
      RenameContent(t, DentryKey(parent, name), DentryKey(newparent, newname), flags, ino);
    case Setattr(caller, i, change) =>
      if ino in t.inodes && DoSetattr(m, t, caller, i, change).reply.Entry? { ChangedContent(t, caller, i, change, ino); }
    case Write(fh, offset, bytes, kp) =>
      WriteReply(m, t, fh, offset, bytes, kp);
      if ino in t.inodes && DoWrite(m, t, fh, offset, bytes, kp).reply.Written? {
        WriteContent(m, t, fh, offset, bytes, kp, ino);
      }
    case Link(i, parent, name) => if ino in t.inodes { SameRows(t, Apply(m, t, c).t, ino); }
    case SetXattr(_, _, _, _, _) => if ino in t.inodes { SameRows(t, Apply(m, t, c).t, ino); }
    case RemoveXattr(_, _) => if ino in t.inodes { SameRows(t, Apply(m, t, c).t, ino); }
  }

  lemma {:induction false} UnlinkedInodes(t: Tables, key: DentryKey, gone: Ino)
    ensures Unlinked(t, key, gone).inodes.Keys <= t.inodes.Keys
  {
    hide NamesOf;
  }

  lemma {:induction false} NewReply(m: Mount, t: Tables, key: DentryKey, kind: Kind, mode: bv16,
                                    target: Option<Name>, full: Errno)
    ensures var o := NewNode(m, t, key, kind, mode, target, full);
            o.reply.Err? ==> o.t == t
  {
  }

  lemma {:induction false} WriteReply(m: Mount, t: Tables, ino: Ino, offset: nat, bytes: Bytes, kp: bool)
    ensures var o := DoWrite(m, t, ino, offset, bytes, kp);
            (o.reply.Err? ==> o.t == t) && (!o.reply.Err? ==> o.reply.Written?)
            && o.t.inodes.Keys == t.inodes.Keys
  {
    hide WriteBlocks, SqlTotal;
  }

  // --- whole runs ----------------------------------------------------------------

  /** The flat file that the successful calls of a run describe, from the call that created `ino` on. */
  ghost function History(start: Tables, s: seq<Tables>, es: seq<Event>, ino: Ino, i: nat): Bytes
    requires i < |s| == |es| + 1
  {
    if i == 0 then if ino in start.inodes then Content(start, ino) else []
    else
      var before, e := s[i - 1], es[i - 1];
      if ino !in before.inodes then Initial(e.c)
      else if Apply(e.m, before, e.c).reply.Err? then History(start, s, es, ino, i - 1)
      else Effect(e.c, ino, History(start, s, es, ino, i - 1))
  }

  /** After any run, every file holds exactly the bytes its history says. */
  lemma {:induction false} RunRefines(start: Tables, maxSize: nat, s: seq<Tables>, es: seq<Event>, ino: Ino, i: nat)
    requires Run(start, maxSize, s, es) && Inv(start) && i < |s| && ino in s[i].inodes
    ensures Content(s[i], ino) == History(start, s, es, ino, i)
  {
    hide Inv, Legal, Apply, Content, Effect, Initial;
    if i == 0 {
    } else {
      RunKeepsInv(start, maxSize, s, es, i - 1);
      assert s[i] == s[i - 1 + 1];
      CallRefines(es[i - 1].m, s[i - 1], es[i - 1].c, ino);
      if ino in s[i - 1].inodes { RunRefines(start, maxSize, s, es, ino, i - 1); }
    }
  }

  /** A read after any run, through a handle to whatever file, yields that slice of the file's history, or
      ENOENT for good once the file is gone. */
  lemma {:induction false} ReadAfterRun(start: Tables, maxSize: nat, s: seq<Tables>, es: seq<Event>,
                                        i: nat, k: nat, fh: Ino, offset: nat, size: nat)
    requires Run(start, maxSize, s, es) && Inv(start) && i <= k < |s|
    ensures ReadReply(s[k], fh, offset, size) ==
            if fh in s[k].inodes then Some(Slice(History(start, s, es, fh, k), offset, size)) else None
    ensures fh in s[i].inodes && fh !in s[k].inodes ==>
              forall l: nat, o: nat, n: nat :: k <= l < |s| ==> ReadReply(s[l], fh, o, n) == None
  {
    hide Run, Inv, Content, History;
    if fh in s[k].inodes {
      RunRefines(start, maxSize, s, es, fh, k);
    } else if fh in s[i].inodes {
      forall l: nat | k <= l < |s| ensures fh !in s[l].inodes {
        NeverReused(start, maxSize, s, es, i, k, l, fh);
      }
    }
  }
}
