/**
 src/fs.rs: the calls of a mounted container, statement by statement on the
 tables it shares. A call that answers with an error leaves its transaction
 uncommitted, which undoes whatever it has done so far.
 */
module Filesystem {
  import opened Common
  import opened FlatFile
  import opened BlockStore
  import opened Schema
  import opened Tree
  import opened Calls
  import opened Invariant
  import opened Refinement
  import opened Runs
  import opened Ordering
  import opened Listing

  class CofferFS {
    var inodes: Inodes
    var dentries: Dentries
    var data: Blocks
    var xattrs: Xattrs
    var mark: nat
    const m: Mount

    function Db(): Tables
      reads this
    {
      Tables(inodes, dentries, data, xattrs, mark)
    }

    constructor (m: Mount, t: Tables)
      ensures this.m == m && Db() == t
    {
      this.m := m;
      inodes, dentries, data, xattrs, mark := t.inodes, t.dentries, t.data, t.xattrs, t.mark;
    }

    // --- transactions --------------------------------------------------------------

    /** Dropping a transaction that was not committed. */
    method Rollback(tx: Tables)
      modifies this
      ensures Db() == tx
    {
      inodes, dentries, data, xattrs, mark := tx.inodes, tx.dentries, tx.data, tx.xattrs, tx.mark;
    }

    // --- helpers over the schema -----------------------------------------------------

    method PutBlock(ino: Ino, no: nat, content: Bytes)
      modifies `data
      ensures data == BlockStore.PutBlock(old(data), ino, no, content)
    {
      if content == [] {
        data := data - {BlockKey(ino, no)};
      } else {
        data := data[BlockKey(ino, no) := content];
      }
    }

    /** `SELECT COALESCE(SUM(size), 0) FROM inodes`; no result when 63 bits cannot hold the sum. */
    method CurrentTotalSize() returns (used: Option<nat>)
      ensures used == SqlTotal(inodes)
    {
      var sum, todo := 0, inodes.Keys;
      while todo != {}
        invariant todo <= inodes.Keys
        invariant sum + SumOver(todo, SizeOf(inodes)) == TotalSize(inodes)
        decreases todo
      {
        var ino :| ino in todo;
        SumRemove(todo, SizeOf(inodes), ino);
        sum, todo := sum + inodes[ino].size, todo - {ino};
      }
      used := if sum <= I64_MAX then Some(sum) else None;
    }

    /** Whether `growth` more bytes would break the ceiling; not asked when SQLite has no sum to offer. */
    method Exceeds(growth: nat) returns (refused: bool)
      ensures refused == OverQuota(m, inodes, growth)
    {
      refused := false;
      if m.maxSize != 0 {
        var used := CurrentTotalSize();
        refused := used.Some? && used.value + growth > m.maxSize;
      }
    }

    method InsertChild(key: DentryKey, kind: Kind, mode: bv16, target: Option<Name>) returns (ino: Option<Ino>)
      modifies this
      ensures old(mark) >= I64_MAX ==> ino.None? && unchanged(this)
      ensures key in old(dentries) ==> ino.None?
      ensures old(mark) < I64_MAX && key !in old(dentries) ==>
                && ino == Some(old(mark) + 1)
                && var size := if target.Some? then |target.value| else 0;
                   Db() == Inserted(old(Db()), key, InodeRow(kind, mode, m.uid, m.gid, size, target))
    {
      if mark >= I64_MAX {
        return None;   // SQLITE_FULL: the AUTOINCREMENT range is used up
      }
      mark := mark + 1;
      inodes := inodes[mark := InodeRow(kind, mode, m.uid, m.gid, if target.Some? then |target.value| else 0, target)];
      var linked := LinkDentry(key, mark);
      ino := if linked then Some(mark) else None;
    }

    /** One more name; the primary key on parent and name refuses one that is there. */
    method LinkDentry(key: DentryKey, ino: Ino) returns (linked: bool)
      modifies `dentries
      ensures linked <==> key !in old(dentries)
      ensures dentries == if linked then old(dentries)[key := ino] else old(dentries)
    {
      if key in dentries {
        return false;
      }
      dentries := dentries[key := ino];
      linked := true;
    }

    method DeleteInode(ino: Ino)
      modifies this
      ensures Db() == Deleted(old(Db()), ino)
    {
      data := WithoutInode(data, ino);
      xattrs := WithoutXattrs(xattrs, ino);
      inodes := inodes - {ino};
    }

    /** The inode goes with its last name, and only then. */
    method UnlinkDentry(key: DentryKey, ino: Ino)
      modifies this
      ensures Db() == Unlinked(old(Db()), key, ino)
    {
      dentries := dentries - {key};
      var remaining := |NamesOf(dentries, ino)|;
      if remaining == 0 {
        DeleteInode(ino);
      }
    }

    method KillPriv(ino: Ino)
      requires ino in inodes
      modifies this
      ensures Db() == PrivDropped(old(Db()), ino)
    {
      ClearSetid(ino);
      hide DropSetid;
      xattrs := xattrs - {XattrKey(ino, CAPABILITY)};
    }

    method ClearSetid(ino: Ino)
      requires ino in inodes
      modifies `inodes
      ensures inodes == old(inodes)[ino := old(inodes)[ino].(mode := DropSetid(old(inodes)[ino].mode))]
    {
      hide DropSetid;
      var mode := ClearBits(inodes[ino].mode);
      inodes := inodes[ino := inodes[ino].(mode := mode)];
    }

    /** The first two UPDATEs of `kill_priv`, each only where there is something to drop. */
    static method ClearBits(mode: bv16) returns (m: bv16)
      ensures m == DropSetid(mode)
    {
      m := mode;
      if Setuid(m) {
        m := m & 0xF7FF;
      }
      if Setgid(m) && GroupExec(m) {
        m := m & 0xFBFF;
      }
    }

    method TruncateInode(ino: Ino, length: nat)
      requires ino in inodes
      modifies this
      ensures Db() == Resized(old(Db()), ino, length)
    {
      var lastBlock, lastOff := BlockNo(length), BlockOff(length);
      data := WithoutBlocksAfter(data, ino, lastBlock);
      if lastOff > 0 {
        var block := GetBlock(data, ino, lastBlock);
        block := block[..Min(lastOff, |block|)];
        PutBlock(ino, lastBlock, block);
      } else {
        data := data - {BlockKey(ino, lastBlock)};
      }
      inodes := inodes[ino := inodes[ino].(size := length)];
    }

    // --- calls that add a name ---------------------------------------------------------

    method Mkdir(parent: Ino, name: Name, perm: bv16) returns (reply: Reply)
      modifies this
      ensures Outcome(Db(), reply) == DoMkdir(m, old(Db()), DentryKey(parent, name), perm)
    {
      var key := DentryKey(parent, name);
      if key in dentries {
        return Err(EEXIST);
      }
      var ino := InsertChild(key, Dir, ModeFor(Dir, perm), None);
      if ino.None? {
        return Err(EIO);
      }
      reply := Entry(ToAttr(Db(), ino.value));
    }

    method Create(parent: Ino, name: Name, perm: bv16) returns (reply: Reply)
      modifies this
      ensures Outcome(Db(), reply) == DoCreate(m, old(Db()), DentryKey(parent, name), perm)
    {
      var key := DentryKey(parent, name);
      if key in dentries {
        return Err(EEXIST);
      }
      if m.maxSize != 0 {
        var used := CurrentTotalSize();
        if used.Some? && used.value >= m.maxSize {
          return Err(ENOSPC);
        }
      }
      var ino := InsertChild(key, File, ModeFor(File, perm), None);
      if ino.None? {
        return Err(ENOSPC);
      }
      reply := Entry(ToAttr(Db(), ino.value));
    }

    method Symlink(parent: Ino, name: Name, target: Name) returns (reply: Reply)
      modifies this
      ensures Outcome(Db(), reply) == DoSymlink(m, old(Db()), DentryKey(parent, name), target)
    {
      var key := DentryKey(parent, name);
      if key in dentries {
        return Err(EEXIST);
      }
      var refused := Exceeds(|target|);
      if refused {
        return Err(ENOSPC);
      }
      var ino := InsertChild(key, Kind.Symlink, ModeFor(Kind.Symlink, 0x1FF), Some(target));
      if ino.None? {
        return Err(EIO);
      }
      reply := Entry(ToAttr(Db(), ino.value));
    }

    method Link(ino: Ino, newparent: Ino, newname: Name) returns (reply: Reply)
      modifies this
      ensures Outcome(Db(), reply) == DoLink(old(Db()), ino, DentryKey(newparent, newname))
    {
      if ino !in inodes {
        return Err(ENOENT);
      }
      if inodes[ino].kind.Dir? {
        return Err(EPERM);
      }
      var key := DentryKey(newparent, newname);
      if key in dentries {
        return Err(EEXIST);
      }
      var linked := LinkDentry(key, ino);
      assert linked;
      reply := Entry(ToAttr(Db(), ino));
    }

    // --- calls that remove or move a name ------------------------------------------------

    method Unlink(parent: Ino, name: Name) returns (reply: Reply)
      modifies this
      ensures Outcome(Db(), reply) == DoUnlink(old(Db()), DentryKey(parent, name))
    {
      var ino := Child(dentries, DentryKey(parent, name));
      if ino.None? {
        return Err(ENOENT);
      }
      UnlinkDentry(DentryKey(parent, name), ino.value);
      reply := Done;
    }

    method Rmdir(parent: Ino, name: Name) returns (reply: Reply)
      modifies this
      ensures Outcome(Db(), reply) == DoRmdir(old(Db()), DentryKey(parent, name))
    {
      var ino := Child(dentries, DentryKey(parent, name));
      if ino.None? {
        return Err(ENOENT);
      }
      if ino.value == ROOT_INO {
        return Err(EBUSY);
      }
      var refused := EnsureRemovable(Db(), ino.value);
      if refused.Some? {
        return Err(refused.value);
      }
      UnlinkDentry(DentryKey(parent, name), ino.value);
      reply := Done;
    }

    method Rename(parent: Ino, name: Name, newparent: Ino, newname: Name, flags: RenameFlags) returns (reply: Reply)
      modifies this
      ensures Outcome(Db(), reply) == DoRename(old(Db()), DentryKey(parent, name), DentryKey(newparent, newname), flags)
    {
      hide NamesOf, ChildrenOf;
      var tx, key, newkey := Db(), DentryKey(parent, name), DentryKey(newparent, newname);
      var ino := Child(dentries, key);
      if ino.None? {
        return Err(ENOENT);
      }
      var target := Child(dentries, newkey);
      if flags.exchange || flags.whiteout {
        return Err(EINVAL);
      }
      if flags.noreplace && target.Some? {
        return Err(EEXIST);
      }
      if target.Some? && target.value != ino.value {
        var refused := EnsureRemovable(Db(), target.value);
        if refused.Some? {
          return Err(refused.value);
        }
        UnlinkDentry(newkey, target.value);
      }
      // UPDATE dentries SET parent, name: the new primary key must be free.
      if newkey in dentries && newkey != key {
        Rollback(tx);
        return Err(EIO);
      }
      dentries := (dentries - {key})[newkey := ino.value];
      if target == Some(ino.value) { assert dentries == tx.dentries; }
      reply := Done;
    }

    // --- attributes ------------------------------------------------------------------------

    /** The first two UPDATEs of `setattr`. */
    method ChangeOwnerAndMode(ino: Ino, ch: Change)
      requires ino in inodes
      modifies `inodes
      ensures inodes == old(inodes)[ino := ChangedRow(old(inodes)[ino], ch)]
    {
      hide Chmod;
      var row := inodes[ino];
      if ch.mode.Some? {
        inodes := inodes[ino := inodes[ino].(mode := Chmod(row.mode, ch.mode.value))];
      }
      if ch.uid.Some? || ch.gid.Some? {
        var newUid := if ch.uid.Some? then ch.uid.value else row.uid;
        var newGid := if ch.gid.Some? then ch.gid.value else row.gid;
        inodes := inodes[ino := inodes[ino].(uid := newUid, gid := newGid)];
      }
    }

    method Setattr(caller: nat, ino: Ino, ch: Change) returns (reply: Reply)
      modifies this
      ensures Outcome(Db(), reply) == DoSetattr(m, old(Db()), caller, ino, ch)
    {
      hide ToAttr, Nlink, DropSetid, Chmod, Resized, SqlTotal, PrivDropped;
      var tx := Db();
      if ino !in inodes {
        return Err(ENOENT);
      }
      var row := inodes[ino];
      ChangeOwnerAndMode(ino, ch);
      if ch.size.Some? {
        if ch.size.value > I64_MAX {
          Rollback(tx);
          return Err(EFBIG);
        }
        if ch.size.value > row.size {
          SameTotal(tx.inodes, ino, inodes[ino]);
          var refused := Exceeds(ch.size.value - row.size);
          if refused {
            Rollback(tx);
            return Err(ENOSPC);
          }
        }
        TruncateInode(ino, ch.size.value);
      }
      var truncating := ch.size.Some? && caller != 0;
      var chowning := (ch.uid.Some? || ch.gid.Some?) && !row.kind.Dir?;
      if ch.mode.None? && (truncating || chowning) {
        KillPriv(ino);
      }
      reply := Entry(ToAttr(Db(), ino));
    }

    static lemma SameTotal(inodes: Inodes, ino: Ino, row: InodeRow)
      requires ino in inodes && row.size == inodes[ino].size
      ensures SqlTotal(inodes[ino := row]) == SqlTotal(inodes)
    {
      hide SumOver;
      TotalUpdate(inodes, ino, row);
    }

    // --- file content -----------------------------------------------------------------------

    /** The u64 sum `offset + size` may wrap; what comes back is right all the same. */
    method Read(fh: Ino, offset: nat, size: nat) returns (bytes: Option<Bytes>)
      requires offset < TWO_TO_THE_64 && size < TWO_TO_THE_32
      requires fh in inodes ==> inodes[fh].size <= I64_MAX
      ensures bytes == ReadReply(Db(), fh, offset, size)
    {
      if fh !in inodes {
        return None;
      }
      var end := Min((offset + size) % TWO_TO_THE_64, inodes[fh].size);
      if end <= offset {
        assert Slice(Content(Db(), fh), offset, size) == [];
        return Some([]);
      }
      var out, pos := [], offset;
      while pos < end
        invariant offset <= pos <= end && |out| == pos - offset
        invariant forall i :: 0 <= i < |out| ==> out[i] == ByteAt(data, fh, offset + i)
      {
        var blockOff := BlockOff(pos);
        var chunkLen := Min(BLOCK_SIZE - blockOff, end - pos);
        var block := GetBlock(data, fh, BlockNo(pos));
        var chunk: Bytes;
        if blockOff < |block| {
          var avail := Min(chunkLen, |block| - blockOff);
          chunk := block[blockOff..blockOff + avail];
          if avail < chunkLen {
            chunk := chunk + Zeros(chunkLen - avail);
          }
        } else {
          chunk := Zeros(chunkLen);
        }
        ChunkRead(data, fh, pos, chunkLen, chunk);
        AppendRead(data, fh, offset, out, chunk);
        out, pos := out + chunk, pos + chunkLen;
      }
      assert out == Slice(Content(Db(), fh), offset, size);
      bytes := Some(out);
    }

    static lemma ChunkRead(data: Blocks, ino: Ino, pos: nat, len: nat, chunk: Bytes)
      requires len <= BLOCK_SIZE - BlockOff(pos) && |chunk| == len
      requires var block := GetBlock(data, ino, BlockNo(pos));
               forall i :: 0 <= i < len ==>
                 chunk[i] == if BlockOff(pos) + i < |block| then block[BlockOff(pos) + i] else 0
      ensures forall i :: 0 <= i < len ==> chunk[i] == ByteAt(data, ino, pos + i)
    {
      forall i | 0 <= i < len ensures chunk[i] == ByteAt(data, ino, pos + i) {
        SameBlock(pos, pos + i);
      }
    }

    static lemma AppendRead(data: Blocks, ino: Ino, offset: nat, out: Bytes, chunk: Bytes)
      requires forall i :: 0 <= i < |out| ==> out[i] == ByteAt(data, ino, offset + i)
      requires forall i :: 0 <= i < |chunk| ==> chunk[i] == ByteAt(data, ino, offset + |out| + i)
      ensures forall i :: 0 <= i < |out + chunk| ==> (out + chunk)[i] == ByteAt(data, ino, offset + i)
    {
      hide ByteAt;
      forall i | 0 <= i < |out + chunk| ensures (out + chunk)[i] == ByteAt(data, ino, offset + i) {
        if i >= |out| {
          assert (out + chunk)[i] == chunk[i - |out|];
          assert offset + |out| + (i - |out|) == offset + i;
        }
      }
    }

    method Write(fh: Ino, offset: nat, bytes: Bytes, killPriv: bool) returns (reply: Reply)
      modifies this
      ensures Outcome(Db(), reply) == DoWrite(m, old(Db()), fh, offset, bytes, killPriv)
    {
      hide DropSetid, SumOver, BlockNo, BlockOff;
      if offset > I64_MAX || |bytes| > I64_MAX - offset {
        return Err(EFBIG);
      }
      var tx := Db();
      if fh !in inodes {
        return Err(ENOENT);
      }
      var oldSize, needed := inodes[fh].size, offset + |bytes|;
      if needed > oldSize {
        var refused := Exceeds(needed - oldSize);
        if refused {
          return Err(ENOSPC);
        }
      }
      WriteAll(fh, offset, bytes);
      inodes := inodes[fh := inodes[fh].(size := Max(oldSize, needed))];
      assert Db() == Overwritten(tx, fh, offset, bytes);
      if killPriv {
        KillPriv(fh);
      }
      reply := Written(|bytes| % TWO_TO_THE_32);
    }

    /** The loop of `write`: block by block, each read, grown with zeros where it is too short, patched and stored. */
    method WriteAll(fh: Ino, offset: nat, bytes: Bytes)
      modifies `data
      ensures data == WriteBlocks(old(data), fh, offset, bytes, 0)
    {
      hide Overwrite, BlockNo, BlockOff, WriteBlocks;
      var pos, remaining := offset, bytes;
      while remaining != []
        invariant |remaining| <= |bytes| && pos == offset + (|bytes| - |remaining|)
        invariant remaining == bytes[|bytes| - |remaining|..]
        invariant WriteBlocks(data, fh, offset, bytes, |bytes| - |remaining|) == WriteBlocks(old(data), fh, offset, bytes, 0)
        decreases |remaining|
      {
        ghost var done := |bytes| - |remaining|;
        WriteBlocksStep(data, fh, offset, bytes, done);
        var blockNo, blockOff := BlockNo(pos), BlockOff(pos);
        var take := Min(BLOCK_SIZE - blockOff, |remaining|);
        var chunk := remaining[..take];
        assert chunk == bytes[done..done + take];
        var buf := GetBlock(data, fh, blockNo);
        buf := Patch(buf, blockOff, chunk);
        PutBlock(fh, blockNo, buf);
        pos, remaining := pos + take, remaining[take..];
      }
      WriteBlocksStep(data, fh, offset, bytes, |bytes|);
    }

    /** `resize` to the length needed, if it is short of it, and `copy_from_slice`. */
    static method Patch(block: Bytes, blockOff: nat, chunk: Bytes) returns (buf: Bytes)
      ensures buf == Overwrite(block, blockOff, chunk)
    {
      buf := block;
      var needLen := blockOff + |chunk|;
      if |buf| < needLen {
        buf := buf + Zeros(needLen - |buf|);
      }
      buf := buf[..blockOff] + chunk + buf[needLen..];
    }

    // --- extended attributes -------------------------------------------------------------------

    method SetXattr(ino: Ino, name: Name, value: Bytes, create: bool, replace: bool) returns (reply: Reply)
      modifies this
      ensures Outcome(Db(), reply) == DoSetXattr(old(Db()), ino, name, value, create, replace)
    {
      if name == [] || |name| > XATTR_NAME_MAX {
        return Err(ERANGE);
      }
      if |value| > XATTR_SIZE_MAX {
        return Err(E2BIG);
      }
      if ino !in inodes {
        return Err(ENOENT);
      }
      var exists_ := XattrKey(ino, name) in xattrs;
      if exists_ && create {
        return Err(EEXIST);
      }
      if !exists_ && replace {
        return Err(ENODATA);
      }
      xattrs := xattrs[XattrKey(ino, name) := value];
      reply := Done;
    }

    method RemoveXattr(ino: Ino, name: Name) returns (reply: Reply)
      modifies this
      ensures Outcome(Db(), reply) == DoRemoveXattr(old(Db()), ino, name)
    {
      if XattrKey(ino, name) !in xattrs {
        return Err(ENODATA);
      }
      xattrs := xattrs - {XattrKey(ino, name)};
      reply := Done;
    }

    method GetXattr(ino: Ino, name: Name, size: nat) returns (reply: XattrReply)
      ensures reply == GetReply(xattrs, ino, name, size)
      ensures XattrKey(ino, name) in xattrs && Inv(Db()) ==>
                var value := xattrs[XattrKey(ino, name)];
                && (size == 0 ==> reply == Size(|value|))
                && (size >= |value| > 0 ==> reply == Data(value))
    {
      if Inv(Db()) { GetXattrProbe(Db(), ino, name); }
      hide Inv;
      if XattrKey(ino, name) !in xattrs {
        return Failed(ENODATA);
      }
      reply := ReplyXattr(size, xattrs[XattrKey(ino, name)]);
    }

    method ListXattr(ino: Ino, size: nat) returns (reply: XattrReply)
      ensures reply == ListReply(xattrs, ino, size)
    {
      hide Sorted, XattrNames;
      var names := Sorted(XattrNames(xattrs, ino));
      var out, i := [], 0;
      while i < |names|
        invariant i <= |names| && out + NameList(names[i..]) == NameList(names)
      {
        out, i := out + names[i] + [0], i + 1;
      }
      reply := ReplyXattr(size, out);
    }

    // --- lookups and listings ----------------------------------------------------------------------

    method Lookup(parent: Ino, name: Name) returns (reply: Reply)
      ensures reply == LookupReply(Db(), parent, name)
      ensures Inv(Db()) ==> reply == Err(ENOENT) || (reply.Entry? && Describes(reply.attr, Db(), reply.attr.ino))
      ensures Inv(Db()) ==>
                var entries := ChildEntries(inodes, dentries, parent);
                if reply.Entry? then DirEntry(reply.attr.ino, reply.attr.kind, name) in entries
                else forall e <- entries :: e.name != name
    {
      if Inv(Db()) { LookupFindsListed(Db(), parent, name); }
      hide Inv, ChildEntries, Describes;
      var ino := Child(dentries, DentryKey(parent, name));
      if ino.None? {
        return Err(ENOENT);
      }
      if ino.value !in inodes {
        return Err(EIO);
      }
      reply := Entry(ToAttr(Db(), ino.value));
    }

    /** `room` is the size of the reply buffer, `cost` what an entry takes of it. */
    method Readdir(ino: Ino, offset: nat, room: nat, cost: Cost) returns (reply: Option<seq<Listed>>)
      requires Inv(Db()) && (ino in inodes ==> IsDir(inodes, ino))
      ensures ino !in inodes ==> reply == None
      ensures ino in inodes ==>
                && ParentOf(dentries, ino).Some?
                && reply == Some(Answer(Entries(inodes, dentries, ino, ParentOf(dentries, ino).value), offset, room, cost))
    {
      hide Entries;
      var parent := ROOT_INO;
      if ino != ROOT_INO {
        var names := NamesOf(dentries, ino);
        if names == {} {
          if ino in inodes { OneParent(inodes, dentries, ino); }
          return None;
        }
        var k :| k in names;
        ParentIsTheOne(inodes, dentries, ino, k);
        parent := k.parent;
      }
      var listed := FillReply(Entries(inodes, dentries, ino, parent), offset, room, cost);
      reply := Some(listed);
    }

    /** The loop over the entries: `add` refuses the first one that the buffer has no room for. */
    method FillReply(entries: seq<DirEntry>, offset: nat, room: nat, cost: Cost) returns (out: seq<Listed>)
      ensures out == Answer(entries, offset, room, cost)
    {
      var i: nat, free: nat := offset, room;
      out := [];
      while i < |entries|
        invariant i == offset + |out| && (|out| > 0 ==> i <= |entries|)
        invariant Fitting(entries, offset, room, cost) == |out| + Fitting(entries, i, free, cost)
        invariant forall j :: 0 <= j < |out| ==> out[j] == Listed(entries[offset + j], offset + j + 1)
        decreases |entries| - i
      {
        if cost(entries[i]) > free {
          break;
        }
        out, free, i := out + [Listed(entries[i], i + 1)], free - cost(entries[i]), i + 1;
      }
    }

    // --- any call ---------------------------------------------------------------------------------

    /** Every call the kernel may pass down does what `Apply` says, keeps the invariant, and undoes itself
        when it answers with an error. */
    method Dispatch(c: Call) returns (reply: Reply)
      requires Inv(Db()) && Legal(Db(), c)
      modifies this
      ensures Outcome(Db(), reply) == Apply(m, old(Db()), c)
      ensures Inv(Db())
      ensures reply.Err? ==> Db() == old(Db())
    {
      hide Inv, Legal, DoMkdir, DoCreate, DoSymlink, DoLink, DoUnlink, DoRmdir, DoRename, DoSetattr, DoWrite, DoSetXattr, DoRemoveXattr;
      CallKeepsInv(m, Db(), c);
      if Apply(m, Db(), c).reply.Err? { ErrorChangesNothing(m, Db(), c); }
      match c {
        case Mkdir(parent, name, perm) => reply := Mkdir(parent, name, perm);
        case Create(parent, name, perm) => reply := Create(parent, name, perm);
        case Symlink(parent, name, target) => reply := Symlink(parent, name, target);
        case Link(ino, parent, name) => reply := Link(ino, parent, name);
        case Unlink(parent, name) => reply := Unlink(parent, name);
        case Rmdir(parent, name) => reply := Rmdir(parent, name);
        case Rename(parent, name, newparent, newname, flags) => reply := Rename(parent, name, newparent, newname, flags);
        case Setattr(caller, ino, change) => reply := Setattr(caller, ino, change);
        case Write(fh, offset, bytes, killPriv) => reply := Write(fh, offset, bytes, killPriv);
        case SetXattr(ino, name, value, create, replace) => reply := SetXattr(ino, name, value, create, replace);
        case RemoveXattr(ino, name) => reply := RemoveXattr(ino, name);
      }
    }
  }
}
