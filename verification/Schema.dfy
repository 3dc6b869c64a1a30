/**
 The four tables of a container in format 2 (src/db.rs), as values: the class
 CofferFS holds one of each, the specifications and the invariants speak about
 all of them at once. Timestamps are not part of the model.
 */
module Schema {
  import opened Common
  import opened BlockStore

  type Ino = nat

  /** A name as SQLite compares it: the bytes of its UTF-8 form. */
  type Name = Bytes

  const ROOT_INO: Ino := 1

  datatype Kind = Dir | File | Symlink

  datatype InodeRow = InodeRow(kind: Kind, mode: bv16, uid: nat, gid: nat, size: nat, target: Option<Name>)

  datatype DentryKey = DentryKey(parent: Ino, name: Name)

  datatype XattrKey = XattrKey(ino: Ino, name: Name)

  type Inodes = map<Ino, InodeRow>
  type Dentries = map<DentryKey, Ino>
  type Xattrs = map<XattrKey, Bytes>

  /** `mark` is the AUTOINCREMENT mark of `inodes`: the highest number ever handed out. */
  datatype Tables = Tables(inodes: Inodes, dentries: Dentries, data: Blocks, xattrs: Xattrs, mark: nat)

  // --- mode bits (all of them fit into 16) -------------------------------------

  function TypeBits(kind: Kind): bv16 {
    match kind
    case Dir => 0x4000
    case File => 0x8000
    case Symlink => 0xA000
  }

  /** The bits outside 07777. */
  function TypePart(mode: bv16): bv16 {
    mode & 0xF000
  }

  /** The bits inside 07777. */
  function Perm(mode: bv16): bv16 {
    mode & 0xFFF
  }

  predicate Setuid(mode: bv16) { mode & 0x800 != 0 }   // 04000

  predicate Setgid(mode: bv16) { mode & 0x400 != 0 }   // 02000

  predicate GroupExec(mode: bv16) { mode & 0x8 != 0 }  // 00010

  /** The mode of a new inode: the type bits of its kind and the permissions asked for. */
  function ModeFor(kind: Kind, perm: bv16): bv16 {
    TypeBits(kind) | Perm(perm)
  }

  /** `chmod`: new permissions, same type bits. */
  function Chmod(mode: bv16, perm: bv16): bv16 {
    TypePart(mode) | Perm(perm)
  }

  /** The two UPDATEs of `kill_priv`, one after the other. */
  function DropSetid(mode: bv16): bv16 {
    var m := if Setuid(mode) then mode & 0xF7FF else mode;
    if Setgid(m) && GroupExec(m) then m & 0xFBFF else m
  }

  // --- queries ----------------------------------------------------------------

  const CAPABILITY: Name := [115, 101, 99, 117, 114, 105, 116, 121, 46,
                             99, 97, 112, 97, 98, 105, 108, 105, 116, 121]   // "security.capability"

  function Child(dentries: Dentries, key: DentryKey): Option<Ino> {
    if key in dentries then Some(dentries[key]) else None
  }

  function NamesOf(dentries: Dentries, ino: Ino): set<DentryKey> {
    set k | k in dentries && dentries[k] == ino
  }

  function ChildrenOf(dentries: Dentries, ino: Ino): set<DentryKey> {
    set k | k in dentries && k.parent == ino
  }

  /** The link count as `stat` reports it: 2 for a directory, else the number of names, as a u32. */
  function Nlink(inodes: Inodes, dentries: Dentries, ino: Ino): nat
    requires ino in inodes
  {
    if inodes[ino].kind.Dir? then 2 else |NamesOf(dentries, ino)| % TWO_TO_THE_32
  }

  /** The sum of `f` over a set of inode numbers. */
  ghost function SumOver(s: set<Ino>, f: Ino -> nat): nat {
    if s == {} then 0 else
      var x :| x in s;
      f(x) + SumOver(s - {x}, f)
  }

  ghost function SizeOf(inodes: Inodes): Ino -> nat {
    ino => if ino in inodes then inodes[ino].size else 0
  }

  /** The mathematical sum of all sizes, whether or not 64 bits can hold it. */
  ghost function TotalSize(inodes: Inodes): nat {
    SumOver(inodes.Keys, SizeOf(inodes))
  }

  /** `SELECT COALESCE(SUM(size), 0)`: SQLite fails when the signed 64-bit sum overflows. */
  ghost function SqlTotal(inodes: Inodes): Option<nat> {
    if TotalSize(inodes) <= I64_MAX then Some(TotalSize(inodes)) else None
  }

  // --- sums -------------------------------------------------------------------

  lemma {:induction false} SumRemove(s: set<Ino>, f: Ino -> nat, x: Ino)
    requires x in s
    ensures SumOver(s, f) == f(x) + SumOver(s - {x}, f)
    decreases s
  {
    var y :| y in s && SumOver(s, f) == f(y) + SumOver(s - {y}, f);
    if y == x {
    } else {
      SumRemove(s - {y}, f, x);
      SumRemove(s - {x}, f, y);
      assert s - {y} - {x} == s - {x} - {y};
    }
  }

  lemma {:induction false} SumEqual(s: set<Ino>, f: Ino -> nat, g: Ino -> nat)
    requires forall x <- s :: f(x) == g(x)
    ensures SumOver(s, f) == SumOver(s, g)
    decreases s
  {
    if s == {} {
    } else {
      var x :| x in s;
      SumRemove(s, f, x);
      SumRemove(s, g, x);
      SumEqual(s - {x}, f, g);
    }
  }

  lemma {:induction false} TotalInsert(inodes: Inodes, ino: Ino, row: InodeRow)
    requires ino !in inodes
    ensures TotalSize(inodes[ino := row]) == TotalSize(inodes) + row.size
  {
    var after := inodes[ino := row];
    SumRemove(after.Keys, SizeOf(after), ino);
    assert after.Keys - {ino} == inodes.Keys;
    SumEqual(inodes.Keys, SizeOf(after), SizeOf(inodes));
  }

  lemma {:induction false} TotalUpdate(inodes: Inodes, ino: Ino, row: InodeRow)
    requires ino in inodes
    ensures TotalSize(inodes[ino := row]) == TotalSize(inodes) - inodes[ino].size + row.size
  {
    var after := inodes[ino := row];
    assert after.Keys == inodes.Keys;
    SumRemove(inodes.Keys, SizeOf(inodes), ino);
    SumRemove(after.Keys, SizeOf(after), ino);
    SumEqual(inodes.Keys - {ino}, SizeOf(after), SizeOf(inodes));
  }

  lemma {:induction false} TotalDelete(inodes: Inodes, ino: Ino)
    requires ino in inodes
    ensures TotalSize(inodes - {ino}) == TotalSize(inodes) - inodes[ino].size
  {
    SumRemove(inodes.Keys, SizeOf(inodes), ino);
    assert (inodes - {ino}).Keys == inodes.Keys - {ino};
    SumEqual(inodes.Keys - {ino}, SizeOf(inodes - {ino}), SizeOf(inodes));
  }
}
