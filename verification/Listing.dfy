/** What `readdir` and `listxattr` answer, and what a caller can rebuild from it. */
module Listing {
  import opened Common
  import opened Ordering
  import opened Schema
  import opened Tree
  import opened Calls
  import opened Invariant

  // --- directories ---------------------------------------------------------------

  const DOT: Name := [46]
  const DOTDOT: Name := [46, 46]

  datatype DirEntry = DirEntry(ino: Ino, kind: Kind, name: Name)

  /** An entry and the offset at which to go on after it. */
  datatype Listed = Listed(entry: DirEntry, next: nat)

  /** The names the JOIN of `dentries` with `inodes` yields for one directory. */
  function ChildNames(inodes: Inodes, dentries: Dentries, dir: Ino): set<Name> {
    set k | k in dentries && k.parent == dir && dentries[k] in inodes :: k.name
  }

  function EntryOf(inodes: Inodes, dentries: Dentries, dir: Ino, name: Name): DirEntry
    requires name in ChildNames(inodes, dentries, dir)
  {
    var ino := dentries[DentryKey(dir, name)];
    DirEntry(ino, inodes[ino].kind, name)
  }

  function ChildEntries(inodes: Inodes, dentries: Dentries, dir: Ino): (r: seq<DirEntry>)
    ensures |r| == |Sorted(ChildNames(inodes, dentries, dir))|
  {
    SortedIsOrder(ChildNames(inodes, dentries, dir));
    var names := Sorted(ChildNames(inodes, dentries, dir));
    seq(|names|, i requires 0 <= i < |names| => EntryOf(inodes, dentries, dir, names[i]))
  }

  /** What is listed below a directory: its names, each with the inode behind it and that inode's kind. */
  lemma {:induction false} ChildEntryIff(inodes: Inodes, dentries: Dentries, dir: Ino, e: DirEntry)
    ensures e in ChildEntries(inodes, dentries, dir) <==>
            Child(dentries, DentryKey(dir, e.name)) == Some(e.ino) && e.ino in inodes && e.kind == inodes[e.ino].kind
  {
    hide Sorted;
    var names, entries := ChildNames(inodes, dentries, dir), ChildEntries(inodes, dentries, dir);
    SortedIsOrder(names);
    if e in entries {
      var i :| 0 <= i < |entries| && entries[i] == e;
      assert Sorted(names)[i] in names;
    }
    if e.name in names {
      var i :| 0 <= i < |Sorted(names)| && Sorted(names)[i] == e.name;
      assert entries[i] == EntryOf(inodes, dentries, dir, e.name);
    }
  }

  function LookupReply(t: Tables, parent: Ino, name: Name): Reply {
    match Child(t.dentries, DentryKey(parent, name))
    case None => Err(ENOENT)
    case Some(ino) => if ino in t.inodes then Entry(ToAttr(t, ino)) else Err(EIO)
  }

  lemma {:induction false} AttrOf(t: Tables, ino: Ino)
    requires ino in t.inodes
    ensures ToAttr(t, ino).ino == ino && ToAttr(t, ino).kind == t.inodes[ino].kind
  {
  }

  /** A lookup succeeds exactly for what is listed, and yields that inode with the size, the owner and the
      number of links it has; anything else is ENOENT. A container that satisfies the invariant has no name
      that leads nowhere (EIO). */
  lemma {:induction false} LookupFindsListed(t: Tables, parent: Ino, name: Name)
    requires NamesOk(t.inodes, t.dentries)
    ensures var reply, entries := LookupReply(t, parent, name), ChildEntries(t.inodes, t.dentries, parent);
            && (reply == Err(ENOENT) <==> forall e <- entries :: e.name != name)
            && (reply != Err(ENOENT) ==>
                  && reply.Entry? && Describes(reply.attr, t, reply.attr.ino)
                  && Child(t.dentries, DentryKey(parent, name)) == Some(reply.attr.ino)
                  && forall e <- entries :: e.name == name <==> e == DirEntry(reply.attr.ino, reply.attr.kind, name))
            && (reply != Err(ENOENT) ==> DirEntry(reply.attr.ino, reply.attr.kind, name) in entries)
  {
    hide ToAttr, Describes, ValidName, ChildEntries;
    forall e: DirEntry
      ensures e in ChildEntries(t.inodes, t.dentries, parent) <==>
              Child(t.dentries, DentryKey(parent, e.name)) == Some(e.ino) && e.ino in t.inodes && e.kind == t.inodes[e.ino].kind
    {
      ChildEntryIff(t.inodes, t.dentries, parent, e);
    }
    match Child(t.dentries, DentryKey(parent, name)) {
      case None =>
      case Some(ino) =>
        AttrDescribes(t, ino);
        AttrOf(t, ino);
        assert DirEntry(ino, t.inodes[ino].kind, name) in ChildEntries(t.inodes, t.dentries, parent);
    }
  }

  function Entries(inodes: Inodes, dentries: Dentries, dir: Ino, parent: Ino): seq<DirEntry> {
    [DirEntry(dir, Dir, DOT), DirEntry(parent, Dir, DOTDOT)] + ChildEntries(inodes, dentries, dir)
  }

  /** How many bytes an entry takes in the reply buffer. */
  type Cost = DirEntry -> nat

  /** How many entries from `offset` on go into `room` bytes. */
  function Fitting(entries: seq<DirEntry>, offset: nat, room: nat, cost: Cost): (n: nat)
    ensures n > 0 ==> offset + n <= |entries|
    decreases |entries| - offset
  {
    if offset >= |entries| || cost(entries[offset]) > room then 0
    else 1 + Fitting(entries, offset + 1, room - cost(entries[offset]), cost)
  }

  /** One answer: the entries from `offset` on for which there is room. */
  function Page(entries: seq<DirEntry>, offset: nat, room: nat, cost: Cost): seq<DirEntry> {
    if offset >= |entries| then [] else entries[offset..offset + Fitting(entries, offset, room, cost)]
  }

  /** The same answer with the offset to resume at after each entry. */
  function Answer(entries: seq<DirEntry>, offset: nat, room: nat, cost: Cost): seq<Listed> {
    var page := Page(entries, offset, room, cost);
    seq(|page|, i requires 0 <= i < |page| => Listed(page[i], offset + i + 1))
  }

  function EntriesOf(answer: seq<Listed>): seq<DirEntry> {
    seq(|answer|, i requires 0 <= i < |answer| => answer[i].entry)
  }

  /** The offset that comes with the last entry of an answer. */
  function ResumeAt(answer: seq<Listed>, offset: nat): nat {
    if answer == [] then offset else answer[|answer| - 1].next
  }

  /** What a caller collects that always resumes at the last offset it was given. */
  function Paged(entries: seq<DirEntry>, offset: nat, rooms: seq<nat>, cost: Cost): seq<DirEntry>
    decreases |rooms|
  {
    if rooms == [] then []
    else
      var answer := Answer(entries, offset, rooms[0], cost);
      EntriesOf(answer) + Paged(entries, ResumeAt(answer, offset), rooms[1..], cost)
  }

  lemma {:induction false} AnswerIsPage(entries: seq<DirEntry>, offset: nat, room: nat, cost: Cost)
    ensures EntriesOf(Answer(entries, offset, room, cost)) == Page(entries, offset, room, cost)
    ensures ResumeAt(Answer(entries, offset, room, cost), offset) == offset + |Page(entries, offset, room, cost)|
  {
  }

  /** After any entry of an answer, and not just the last, the offset that came with it is where the next one is. */
  lemma {:induction false} ResumeAnywhere(entries: seq<DirEntry>, offset: nat, room: nat, cost: Cost, k: nat)
    requires k < |Answer(entries, offset, room, cost)|
    ensures var answer := Answer(entries, offset, room, cost);
            && answer[k].next == offset + k + 1 <= |entries|
            && answer[k].entry == entries[answer[k].next - 1]
            && EntriesOf(answer)[..k + 1] == entries[offset..answer[k].next]
  {
  }

  ghost function TotalCost(entries: seq<DirEntry>, cost: Cost): nat {
    if entries == [] then 0 else cost(entries[0]) + TotalCost(entries[1..], cost)
  }

  /** An answer fits into the buffer, and there was no room for one entry more. */
  lemma {:induction false} PageFills(entries: seq<DirEntry>, offset: nat, room: nat, cost: Cost)
    ensures var page := Page(entries, offset, room, cost);
            && TotalCost(page, cost) <= room
            && (offset + |page| < |entries| ==> TotalCost(page, cost) + cost(entries[offset + |page|]) > room)
    decreases |entries| - offset
  {
    var page := Page(entries, offset, room, cost);
    if offset >= |entries| || cost(entries[offset]) > room {
      assert page == [];
    } else {
      PageFills(entries, offset + 1, room - cost(entries[offset]), cost);
      assert page[0] == entries[offset] && page[1..] == Page(entries, offset + 1, room - cost(entries[offset]), cost);
    }
  }

  lemma {:induction false} SliceConcat(entries: seq<DirEntry>, a: nat, b: nat, c: nat)
    requires a <= b <= c <= |entries|
    ensures entries[a..b] + entries[b..c] == entries[a..c]
  {
  }

  lemma {:induction false} PagingStep(entries: seq<DirEntry>, offset: nat, room: nat, rooms: seq<nat>, cost: Cost)
    requires offset <= |entries|
    ensures var page := Page(entries, offset, room, cost);
            && offset + |page| <= |entries| && page == entries[offset..offset + |page|]
            && (offset < |entries| && room >= cost(entries[offset]) ==> |page| >= 1)
            && Paged(entries, offset, [room] + rooms, cost) == page + Paged(entries, offset + |page|, rooms, cost)
    ensures Paged(entries, offset, [], cost) == []
  {
    AnswerIsPage(entries, offset, room, cost);
    hide Answer, EntriesOf, ResumeAt;
    assert ([room] + rooms)[1..] == rooms;
  }

  /** With buffers that take any one entry, enough answers make up the whole directory, each entry once and
      in order; fewer make up its beginning. */
  lemma {:induction false} PagingComplete(entries: seq<DirEntry>, offset: nat, rooms: seq<nat>, cost: Cost)
    requires offset <= |entries|
    requires forall i, e :: 0 <= i < |rooms| && e in entries ==> rooms[i] >= cost(e)
    ensures var n := |Paged(entries, offset, rooms, cost)|;
            && offset + n <= |entries| && Paged(entries, offset, rooms, cost) == entries[offset..offset + n]
            && (|rooms| >= |entries| - offset ==> offset + n == |entries|)
    decreases |rooms|
  {
    hide Paged, Page;
    if rooms == [] {
      PagingStep(entries, offset, 0, [], cost);
    } else {
      var room, rest := rooms[0], rooms[1..];
      PagingStep(entries, offset, room, rest, cost);
      assert rooms == [room] + rest;
      assert forall i :: 0 <= i < |rest| ==> rest[i] == rooms[i + 1];
      var next := offset + |Page(entries, offset, room, cost)|;
      PagingComplete(entries, next, rest, cost);
      SliceConcat(entries, offset, next, next + |Paged(entries, next, rest, cost)|);
    }
  }

  /** A name is listed exactly when lookup finds it, with the same inode and that inode's kind. */
  lemma {:induction false} ListedIffFound(t: Tables, dir: Ino, parent: Ino, name: Name)
    requires TreeInv(t.inodes, t.dentries) && name != DOT && name != DOTDOT
    ensures var entries := Entries(t.inodes, t.dentries, dir, parent);
            match Child(t.dentries, DentryKey(dir, name))
            case Some(ino) => ino in t.inodes && DirEntry(ino, t.inodes[ino].kind, name) in entries
            case None => forall e <- entries :: e.name != name
  {
    hide Sorted, Reaches, Named, ValidName;
    var names := ChildNames(t.inodes, t.dentries, dir);
    SortedIsOrder(names);
    var entries := ChildEntries(t.inodes, t.dentries, dir);
    if DentryKey(dir, name) in t.dentries {
      assert name in names;
      var i :| 0 <= i < |Sorted(names)| && Sorted(names)[i] == name;
      assert entries[i] == EntryOf(t.inodes, t.dentries, dir, name);
      assert Entries(t.inodes, t.dentries, dir, parent)[i + 2] == entries[i];
    } else {
      forall e <- entries ensures e.name != name {
        var i :| 0 <= i < |entries| && entries[i] == e;
        assert Sorted(names)[i] in names;
      }
    }
  }

  lemma {:induction false} EntryAt(t: Tables, dir: Ino, parent: Ino, i: nat)
    requires NamesOk(t.inodes, t.dentries)
    requires 2 <= i < |Entries(t.inodes, t.dentries, dir, parent)|
    ensures i - 2 < |Sorted(ChildNames(t.inodes, t.dentries, dir))|
    ensures var name := Sorted(ChildNames(t.inodes, t.dentries, dir))[i - 2];
            Entries(t.inodes, t.dentries, dir, parent)[i].name == name && name != DOT && name != DOTDOT
  {
    var names := ChildNames(t.inodes, t.dentries, dir);
    SortedIsOrder(names);
    hide Sorted;
    assert Entries(t.inodes, t.dentries, dir, parent)[i] == ChildEntries(t.inodes, t.dentries, dir)[i - 2];
    assert Sorted(names)[i - 2] in names;
  }

  lemma {:induction false} ChildrenInOrder(t: Tables, dir: Ino, parent: Ino, i: nat, j: nat)
    requires NamesOk(t.inodes, t.dentries)
    requires 2 <= i < j < |Entries(t.inodes, t.dentries, dir, parent)|
    ensures var entries := Entries(t.inodes, t.dentries, dir, parent);
            Less(entries[i].name, entries[j].name) && entries[i].name != entries[j].name
  {
    SortedIsOrder(ChildNames(t.inodes, t.dentries, dir));
    EntryAt(t, dir, parent, i);
    EntryAt(t, dir, parent, j);
    var names := Sorted(ChildNames(t.inodes, t.dentries, dir));
    if names[i - 2] == names[j - 2] { AscendingDistinct(names, i - 2, j - 2); }
    hide Sorted, Entries, ChildNames, NamesOk, Less;
  }

  /** No name is listed twice, and the children come in the order of their names after `.` and `..`. */
  lemma {:induction false} ListedOnceInOrder(t: Tables, dir: Ino, parent: Ino)
    requires TreeInv(t.inodes, t.dentries)
    ensures var entries := Entries(t.inodes, t.dentries, dir, parent);
            && |entries| >= 2
            && entries[0] == DirEntry(dir, Dir, [46]) && entries[1] == DirEntry(parent, Dir, [46, 46])
            && (forall i, j :: 2 <= i < j < |entries| ==> Less(entries[i].name, entries[j].name))
            && (forall i, j :: 0 <= i < j < |entries| ==> entries[i].name != entries[j].name)
  {
    assert NamesOk(t.inodes, t.dentries);
    hide ChildEntries, TreeInv, NamesOk, Less;
    var entries := Entries(t.inodes, t.dentries, dir, parent);
    assert |entries| >= 2 && entries[0] == DirEntry(dir, Dir, DOT) && entries[1] == DirEntry(parent, Dir, DOTDOT);
    hide Entries;
    forall i, j | 2 <= i < j < |entries| ensures Less(entries[i].name, entries[j].name) && entries[i].name != entries[j].name {
      ChildrenInOrder(t, dir, parent, i, j);
    }
    forall j | 2 <= j < |entries| ensures entries[j].name != DOT && entries[j].name != DOTDOT {
      EntryAt(t, dir, parent, j);
    }
  }

  /** `..`: the root's is the root itself, any other directory has one name and so one parent. */
  ghost function ParentOf(dentries: Dentries, dir: Ino): Option<Ino> {
    if dir == ROOT_INO then Some(ROOT_INO)
    else if k :| k in dentries && dentries[k] == dir then Some(k.parent)
    else None
  }

  /** The root is its own parent; every other directory has one, and it is a directory that is there. */
  lemma {:induction false} ParentOfDir(inodes: Inodes, dentries: Dentries, dir: Ino)
    requires TreeInv(inodes, dentries) && IsDir(inodes, dir)
    ensures ParentOf(dentries, dir).Some? && IsDir(inodes, ParentOf(dentries, dir).value)
    ensures if dir == 1 then ParentOf(dentries, dir) == Some(1)
            else exists name :: Child(dentries, DentryKey(ParentOf(dentries, dir).value, name)) == Some(dir)
  {
    hide Reaches, ValidName;
    if dir != ROOT_INO {
      var k :| k in dentries && dentries[k] == dir;
      ParentIsTheOne(inodes, dentries, dir, k);
      assert k == DentryKey(k.parent, k.name) && Child(dentries, DentryKey(k.parent, k.name)) == Some(dir);
    }
  }

  lemma {:induction false} ParentIsTheOne(inodes: Inodes, dentries: Dentries, dir: Ino, k: DentryKey)
    requires TreeInv(inodes, dentries) && IsDir(inodes, dir) && k in dentries && dentries[k] == dir
    ensures ParentOf(dentries, dir) == Some(k.parent)
  {
    hide Reaches, Named, ValidName;
  }

  // --- attribute names --------------------------------------------------------------

  function XattrNames(xattrs: Xattrs, ino: Ino): set<Name> {
    set k | k in xattrs && k.ino == ino :: k.name
  }

  /** The listxattr(2) format: every name with a NUL after it. */
  function NameList(names: seq<Name>): Bytes {
    if names == [] then [] else names[0] + [0] + NameList(names[1..])
  }

  function FirstNul(bytes: Bytes): (i: nat)
    ensures i <= |bytes| && (i < |bytes| ==> bytes[i] == 0) && forall j :: 0 <= j < i ==> bytes[j] != 0
  {
    if bytes == [] || bytes[0] == 0 then 0 else 1 + FirstNul(bytes[1..])
  }

  /** How a caller takes such a list apart. */
  function SplitAtNul(bytes: Bytes): seq<Name>
    decreases |bytes|
  {
    if bytes == [] then []
    else
      var i := FirstNul(bytes);
      [bytes[..i]] + if i < |bytes| then SplitAtNul(bytes[i + 1..]) else []
  }

  ghost predicate NoNul(names: seq<Name>) {
    forall i :: 0 <= i < |names| ==> 0 !in names[i]
  }

  lemma {:induction false} SplitUndoesList(names: seq<Name>)
    requires NoNul(names)
    ensures SplitAtNul(NameList(names)) == names
    decreases |names|
  {
    if names == [] {
    } else {
      var name, rest := names[0], NameList(names[1..]);
      var bytes := name + [0] + rest;
      var i := FirstNul(bytes);
      assert bytes[|name|] == 0;
      assert forall j :: 0 <= j < |name| ==> bytes[j] == name[j] && name[j] in names[0];
      assert i == |name|;
      assert bytes[..i] == name && bytes[i + 1..] == rest;
      SplitUndoesList(names[1..]);
      assert names == [name] + names[1..];
    }
  }

  /** In every state of every run: the list of an inode's attribute names, taken apart, is those names in order. */
  lemma {:induction false} ListXattrComplete(t: Tables, ino: Ino)
    requires Inv(t)
    ensures SplitAtNul(NameList(Sorted(XattrNames(t.xattrs, ino)))) == Sorted(XattrNames(t.xattrs, ino))
    ensures forall name :: name in SplitAtNul(NameList(Sorted(XattrNames(t.xattrs, ino)))) <==>
              XattrKey(ino, name) in t.xattrs
    ensures Ascending(Sorted(XattrNames(t.xattrs, ino)))
  {
    hide TreeInv, BlocksInv, RowsInv, MarkInv, NameList, SplitAtNul;
    var names := XattrNames(t.xattrs, ino);
    SortedIsOrder(names);
    forall i | 0 <= i < |Sorted(names)| ensures 0 !in Sorted(names)[i] {
      assert Sorted(names)[i] in names;
      assert XattrKey(ino, Sorted(names)[i]) in t.xattrs;
    }
    SplitUndoesList(Sorted(names));
    forall name ensures name in names <==> XattrKey(ino, name) in t.xattrs {
      assert XattrKey(ino, name).name == name;
    }
  }

  // --- the size protocol --------------------------------------------------------------

  datatype XattrReply = Size(size: nat) | Data(data: Bytes) | Failed(errno: Errno)

  /** `reply_xattr`: sizes are u32, so a longer answer is reported by its low 32 bits. */
  function ReplyXattr(size: nat, data: Bytes): XattrReply {
    if size == 0 then Size(|data| % TWO_TO_THE_32)
    else if |data| > size then Failed(ERANGE)
    else Data(data)
  }

  function GetReply(xattrs: Xattrs, ino: Ino, name: Name, size: nat): XattrReply {
    if XattrKey(ino, name) in xattrs then ReplyXattr(size, xattrs[XattrKey(ino, name)]) else Failed(ENODATA)
  }

  function ListReply(xattrs: Xattrs, ino: Ino, size: nat): XattrReply {
    ReplyXattr(size, NameList(Sorted(XattrNames(xattrs, ino))))
  }

  /** A value that is there is read in two calls: a probe with size 0 says exactly how long it is, and with
      that much room the second call yields it (or says again that it is empty). A value is never too long
      for 32 bits, so this never fails; one that is not there is ENODATA. */
  lemma {:induction false} GetXattrProbe(t: Tables, ino: Ino, name: Name)
    requires Inv(t)
    ensures var key := XattrKey(ino, name);
            if key in t.xattrs then
              var value := t.xattrs[key];
              && GetReply(t.xattrs, ino, name, 0) == Size(|value|)
              && GetReply(t.xattrs, ino, name, |value|) == (if value == [] then Size(0) else Data(value))
              && forall size: nat :: size > 0 ==>
                   GetReply(t.xattrs, ino, name, size) == if size < |value| then Failed(ERANGE) else Data(value)
            else
              forall size: nat :: GetReply(t.xattrs, ino, name, size) == Failed(ENODATA)
  {
    hide TreeInv, BlocksInv, RowsInv, MarkInv;
    var key := XattrKey(ino, name);
    assert key in t.xattrs ==> |t.xattrs[key]| <= XATTR_SIZE_MAX;
  }

  lemma {:induction false} ProbeThenCall(data: Bytes)
    ensures var probe := ReplyXattr(0, data);
            probe.Size? && probe.size < TWO_TO_THE_32
            && (ReplyXattr(probe.size, data) == Data(data) <==> 0 < |data| < TWO_TO_THE_32)
            && (ReplyXattr(probe.size, data).Failed? <==> |data| > TWO_TO_THE_32 && |data| % TWO_TO_THE_32 != 0)
            && (ReplyXattr(probe.size, data) == Size(0) <==> |data| % TWO_TO_THE_32 == 0)
  {
  }

  /** Every name takes one byte more than it has, for the NUL. */
  function ListSize(names: seq<Name>): nat {
    if names == [] then 0 else |names[0]| + 1 + ListSize(names[1..])
  }

  lemma {:induction false} NameListSize(names: seq<Name>)
    ensures |NameList(names)| == ListSize(names)
  {
    if names == [] {
    } else {
      NameListSize(names[1..]);
    }
  }

  lemma {:induction false} ListSizeAtMost(names: seq<Name>)
    requires forall i :: 0 <= i < |names| ==> |names[i]| <= XATTR_NAME_MAX
    ensures |names| <= ListSize(names) <= 256 * |names|
  {
    if names == [] {
    } else {
      ListSizeAtMost(names[1..]);
    }
  }

  /** Listing the attributes in two calls: what the second yields, taken apart, is the names in order, if and
      only if there are any and the list is shorter than 2^32 bytes. Without any the probe says 0. */
  lemma {:induction false} ListXattrProbe(t: Tables, ino: Ino)
    requires Inv(t)
    ensures var names := Sorted(XattrNames(t.xattrs, ino));
            var probe := ListReply(t.xattrs, ino, 0);
            && probe == Size(ListSize(names) % TWO_TO_THE_32)
            && var reply := ListReply(t.xattrs, ino, probe.size);
            && (reply.Data? && SplitAtNul(reply.data) == names <==> names != [] && ListSize(names) < TWO_TO_THE_32)
            && (reply.Failed? <==> ListSize(names) > TWO_TO_THE_32 && ListSize(names) % TWO_TO_THE_32 != 0)
            && (names == [] ==> probe == Size(0) && reply == Size(0))
  {
    hide Inv, XattrNames, Sorted, NameList, SplitAtNul, ReplyXattr, ListSize;
    var names := Sorted(XattrNames(t.xattrs, ino));
    ListXattrComplete(t, ino);
    NameListSize(names);
    ProbeThenCall(NameList(names));
    DataIsAll(ListReply(t.xattrs, ino, 0).size, NameList(names));
    NoNames(names);
  }

  lemma {:induction false} DataIsAll(size: nat, data: Bytes)
    ensures ReplyXattr(size, data).Data? ==> ReplyXattr(size, data) == Data(data)
    ensures ReplyXattr(0, data) == Size(|data| % TWO_TO_THE_32)
  {
  }

  lemma {:induction false} NoNames(names: seq<Name>)
    ensures ListSize(names) == 0 <==> names == []
  {
  }

  /** An inode with fewer than 2^24 attributes is always listed that way. */
  lemma {:induction false} FewXattrsListed(t: Tables, ino: Ino)
    requires Inv(t) && 0 < |XattrNames(t.xattrs, ino)| < 16777216
    ensures var reply := ListReply(t.xattrs, ino, ListReply(t.xattrs, ino, 0).size);
            reply.Data? && SplitAtNul(reply.data) == Sorted(XattrNames(t.xattrs, ino))
  {
    ListXattrProbe(t, ino);
    var all := XattrNames(t.xattrs, ino);
    SortedIsOrder(all);
    var names := Sorted(all);
    hide TreeInv, BlocksInv, RowsInv, MarkInv, Sorted, SplitAtNul, NameList, ListSize, ReplyXattr;
    forall i | 0 <= i < |names| ensures |names[i]| <= XATTR_NAME_MAX {
      assert names[i] in all && XattrKey(ino, names[i]) in t.xattrs;
    }
    ListSizeAtMost(names);
  }
}
