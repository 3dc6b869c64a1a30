/**
 The container file as src/db.rs sees it: which format its tables have, and the
 upgrade from format 1, which kept one parent and one name in the inode row.
 */
module Migration {
  import opened Common
  import opened BlockStore
  import opened Schema
  import opened Tree
  import opened Calls
  import opened Invariant
  import opened Runs
  import opened NameCounts

  datatype RowV1 = RowV1(parent: Ino, name: Name, row: InodeRow)

  type InodesV1 = map<Ino, RowV1>

  /** The table called `inodes`, in one layout or the other. */
  datatype InodesTable = V1(rows: InodesV1) | V2(inodes: Inodes)

  // --- format 1 ----------------------------------------------------------------

  /** `SELECT ino FROM inodes WHERE parent = ? AND name = ?` */
  ghost function ChildV1(rows: InodesV1, parent: Ino, name: Name): Option<Ino> {
    if ino :| ino in rows && rows[ino].parent == parent && rows[ino].name == name then Some(ino) else None
  }

  ghost function WalkV1(rows: InodesV1, from: Ino, path: Path): Option<Ino> {
    if path == [] then Some(from)
    else
      match WalkV1(rows, from, path[..|path| - 1])
      case None => None
      case Some(dir) => ChildV1(rows, dir, path[|path| - 1])
  }

  /** `UNIQUE (parent, name)` */
  ghost predicate UniqueV1(rows: InodesV1) {
    forall i, j :: i in rows && j in rows && rows[i].parent == rows[j].parent && rows[i].name == rows[j].name ==> i == j
  }

  /** The columns that format 2 keeps in `inodes`. */
  function Stripped(rows: InodesV1): Inodes {
    map ino | ino in rows :: rows[ino].row
  }

  /** The names of format 1: a tree below inode 1, whose own row has parent 0. */
  ghost predicate TreeV1(rows: InodesV1) {
    && ROOT_INO in rows && rows[ROOT_INO].row.kind.Dir? && rows[ROOT_INO].parent == 0 && 0 !in rows
    && UniqueV1(rows)
    && (forall ino <- rows :: ino != ROOT_INO ==>
          && rows[ino].parent in rows && rows[rows[ino].parent].row.kind.Dir?
          && ValidName(rows[ino].name))
    && (forall ino <- rows :: rows[ino].row.kind.Dir? ==> ReachesV1(rows, ino))
  }

  ghost predicate ReachesV1(rows: InodesV1, ino: Ino) {
    exists path: Path :: WalkV1(rows, ROOT_INO, path) == Some(ino)
  }

  /** A container as format 1 keeps it. */
  ghost predicate WellFormedV1(rows: InodesV1, data: Blocks, xattrs: Xattrs, mark: nat) {
    && TreeV1(rows)
    && (forall k <- data :: k.ino in rows)
    && (forall k <- xattrs ::
          k.ino in rows && 0 < |k.name| <= XATTR_NAME_MAX && 0 !in k.name && |xattrs[k]| <= XATTR_SIZE_MAX)
    && (forall ino <- rows ::
          && rows[ino].row.size <= I64_MAX && BlocksFit(data, ino, rows[ino].row.size)
          && RowOk(rows[ino].row)
          && 1 <= ino <= mark)
    && mark <= I64_MAX
  }

  /** The same inodes, each with every column of its own that format 2 has. */
  ghost predicate RowsKept(rows: InodesV1, inodes: Inodes) {
    && inodes.Keys == rows.Keys
    && forall ino <- rows ::
         && inodes[ino].kind == rows[ino].row.kind && inodes[ino].mode == rows[ino].row.mode
         && inodes[ino].uid == rows[ino].row.uid && inodes[ino].gid == rows[ino].row.gid
         && inodes[ino].size == rows[ino].row.size && inodes[ino].target == rows[ino].row.target
  }

  // --- what the migration makes of it --------------------------------------------

  function NamesFromV1(rows: InodesV1): Dentries
    requires UniqueV1(rows)
  {
    map ino | ino in rows && ino != ROOT_INO :: DentryKey(rows[ino].parent, rows[ino].name) := ino
  }

  function MigratedTables(rows: InodesV1, data: Blocks, xattrs: Xattrs, mark: nat): Tables
    requires UniqueV1(rows)
  {
    Tables(Stripped(rows), NamesFromV1(rows), data, xattrs, mark)
  }

  lemma {:induction false} NameFromV1(rows: InodesV1, dir: Ino, name: Name)
    requires UniqueV1(rows) && ROOT_INO in rows && rows[ROOT_INO].parent == 0 && dir != 0
    ensures Child(NamesFromV1(rows), DentryKey(dir, name)) == ChildV1(rows, dir, name)
  {
    match ChildV1(rows, dir, name) {
      case Some(ino) =>
        assert ino != ROOT_INO;
        assert DentryKey(rows[ino].parent, rows[ino].name) in NamesFromV1(rows);
      case None =>
    }
  }

  /** Every path leads to the same inode before and after. */
  lemma {:induction false} PathsPreserved(rows: InodesV1, from: Ino, path: Path)
    requires UniqueV1(rows) && ROOT_INO in rows && rows[ROOT_INO].parent == 0 && 0 !in rows && from != 0
    ensures Walk(NamesFromV1(rows), from, path) == WalkV1(rows, from, path)
    ensures WalkV1(rows, from, path) != Some(0)
    decreases |path|
  {
    if path == [] {
    } else {
      PathsPreserved(rows, from, path[..|path| - 1]);
      match WalkV1(rows, from, path[..|path| - 1]) {
        case Some(dir) => NameFromV1(rows, dir, path[|path| - 1]);
        case None =>
      }
    }
  }

  /** Every inode but the root has exactly the name it had. */
  lemma {:induction false} OneNameEach(rows: InodesV1, ino: Ino)
    requires UniqueV1(rows) && ino in rows
    ensures NamesOf(NamesFromV1(rows), ino) ==
            if ino == ROOT_INO then {} else {DentryKey(rows[ino].parent, rows[ino].name)}
  {
    var names := NamesFromV1(rows);
    if ino != ROOT_INO {
      assert DentryKey(rows[ino].parent, rows[ino].name) in names;
    }
  }

  lemma {:induction false} MigratedReachable(rows: InodesV1)
    requires TreeV1(rows)
    ensures DirsReachable(Stripped(rows), NamesFromV1(rows))
  {
    forall dir <- Stripped(rows) | IsDir(Stripped(rows), dir) ensures Reaches(NamesFromV1(rows), ROOT_INO, dir) {
      assert ReachesV1(rows, dir);
      var path :| WalkV1(rows, ROOT_INO, path) == Some(dir);
      PathsPreserved(rows, ROOT_INO, path);
    }
  }

  lemma {:induction false} MigratedNamed(rows: InodesV1)
    requires TreeV1(rows)
    ensures AllNamed(Stripped(rows), NamesFromV1(rows))
  {
    forall ino <- Stripped(rows) | ino != ROOT_INO ensures Named(NamesFromV1(rows), ino) {
      var key := DentryKey(rows[ino].parent, rows[ino].name);
      assert key in NamesFromV1(rows) && NamesFromV1(rows)[key] == ino;
    }
  }

  lemma {:induction false} MigratedNamesOk(rows: InodesV1)
    requires TreeV1(rows)
    ensures NamesOk(Stripped(rows), NamesFromV1(rows))
  {
    hide ReachesV1, ValidName;
  }

  lemma {:induction false} MigratedTree(rows: InodesV1)
    requires TreeV1(rows)
    ensures TreeInv(Stripped(rows), NamesFromV1(rows))
  {
    MigratedReachable(rows);
    MigratedNamed(rows);
    MigratedNamesOk(rows);
    hide DirsReachable, AllNamed, NamesOk, TreeV1, Stripped;
  }

  lemma {:induction false} StrippedKeepsRows(rows: InodesV1)
    ensures RowsKept(rows, Stripped(rows))
  {
  }

  lemma {:induction false} MigratedParts(rows: InodesV1, data: Blocks, xattrs: Xattrs, mark: nat)
    requires WellFormedV1(rows, data, xattrs, mark)
    ensures BlocksInv(Stripped(rows), data) && XattrsInv(Stripped(rows), xattrs)
    ensures RowsInv(Stripped(rows)) && MarkInv(Stripped(rows), mark)
  {
    hide TreeV1, RowOk, BlocksFit;
    forall ino <- rows ensures Stripped(rows)[ino] == rows[ino].row {}
    assert Stripped(rows).Keys == rows.Keys;
    hide Stripped;
  }

  /** A migrated container satisfies everything a container created in format 2 does. */
  lemma {:induction false} MigrationKeepsInv(rows: InodesV1, data: Blocks, xattrs: Xattrs, mark: nat)
    requires WellFormedV1(rows, data, xattrs, mark)
    ensures Inv(MigratedTables(rows, data, xattrs, mark))
  {
    MigratedTree(rows);
    MigratedParts(rows, data, xattrs, mark);
    hide BlocksInv, XattrsInv, RowsInv, MarkInv, TreeV1, TreeInv;
  }

  lemma {:induction false} WellFormedMark(rows: InodesV1, data: Blocks, xattrs: Xattrs, mark: nat)
    requires WellFormedV1(rows, data, xattrs, mark)
    ensures forall ino <- rows :: ino <= mark
  {
    hide TreeV1, BlocksFit, RowOk;
  }

  /** Every path leads where it led, every inode keeps its one name, and `check` finds nothing. */
  lemma {:induction false} MigrationKeepsNames(rows: InodesV1)
    requires TreeV1(rows)
    ensures forall path: Path :: Walk(NamesFromV1(rows), ROOT_INO, path) == WalkV1(rows, ROOT_INO, path)
    ensures forall ino <- rows :: |NamesOf(NamesFromV1(rows), ino)| == if ino == ROOT_INO then 0 else 1
    ensures Inconsistencies(Stripped(rows), NamesFromV1(rows)) == (0, 0)
  {
    MigratedTree(rows);
    hide Walk, WalkV1, Inconsistencies, ValidName, NamesOf, DirsReachable, ReachesV1, AllNamed;
    ConsistentIff(Stripped(rows), NamesFromV1(rows));
    forall path: Path ensures Walk(NamesFromV1(rows), ROOT_INO, path) == WalkV1(rows, ROOT_INO, path) {
      PathsPreserved(rows, ROOT_INO, path);
    }
    forall ino <- rows ensures |NamesOf(NamesFromV1(rows), ino)| == if ino == ROOT_INO then 0 else 1 {
      OneNameEach(rows, ino);
    }
  }

  /** After the migration no number that format 1 ever handed out comes to mean anything new: whatever
      is live later was live in the migrated container, or lies above the old mark. */
  lemma {:induction false} NumbersSurviveMigration(rows: InodesV1, data: Blocks, xattrs: Xattrs, mark: nat,
                                                   maxSize: nat, s: seq<Tables>, es: seq<Event>, k: nat, ino: Ino)
    requires WellFormedV1(rows, data, xattrs, mark)
    requires Run(MigratedTables(rows, data, xattrs, mark), maxSize, s, es) && k < |s| && ino in s[k].inodes
    ensures if ino in rows then s[k].inodes[ino].kind == rows[ino].row.kind else ino > mark
  {
    var start := MigratedTables(rows, data, xattrs, mark);
    MigrationKeepsInv(rows, data, xattrs, mark);
    hide Inv, WellFormedV1, Legal, Apply;
    RunAges(start, maxSize, s, es, 0, k);
  }

  // --- the container file ----------------------------------------------------------

  /** The rows of `sqlite_sequence`: one for `inodes`, and while the migration runs one for `inodes_v2`. */
  datatype Sequence = OfInodes | OfInodesV2

  datatype Version = One | Two | Newer

  /** How opening a container ends. SQLite cannot even read a container that another connection holds
      exclusively, and without the right key it reads nonsense. */
  datatype OpenAnswer = Opened | Busy | WrongPassword | UnknownVersion

  /** The mark of `inodes`, 0 if it has none. */
  function Mark(sequences: map<Sequence, nat>): nat {
    if OfInodes in sequences then sequences[OfInodes] else 0
  }

  ghost predicate IsHighest(rows: InodesV1, top: Ino) {
    top in rows && forall ino <- rows :: ino <= top
  }

  class Container {
    var version: Version                 // meta.schema_version
    var inodes: InodesTable
    var dentries: Option<Dentries>
    var data: Blocks
    var xattrs: Option<Xattrs>           // not there in a container from before 0.1.3
    var trigger: bool                    // xattrs_gc
    var sequences: map<Sequence, nat>    // sqlite_sequence
    var password: Bytes                  // what the file is encrypted with

    ghost predicate IsV1()
      reads this
    {
      version == One && inodes.V1? && UniqueV1(inodes.rows) && dentries.None? && OfInodesV2 !in sequences
    }

    ghost predicate IsV2()
      reads this
    {
      version == Two && inodes.V2? && dentries.Some? && OfInodes in sequences
    }

    /** The tables a mount works on. */
    ghost function Db(): Tables
      requires IsV2()
      reads this
    {
      Tables(inodes.inodes, dentries.value, data, Attributes(), sequences[OfInodes])
    }

    ghost function Attributes(): Xattrs
      reads this
    {
      if xattrs.Some? then xattrs.value else map[]
    }

    /** A container as version 1 leaves it. */
    ghost predicate HoldsV1()
      reads this
    {
      IsV1() && OfInodes in sequences && WellFormedV1(inodes.rows, data, Attributes(), sequences[OfInodes])
    }

    /** `create_container` */
    constructor (m: Mount, password: Bytes)
      ensures IsV2() && trigger && xattrs.Some? && Db() == Fresh(m) && this.password == password
      ensures Db() == Tables(map[1 := InodeRow(Dir, 0x41C0, m.uid, m.gid, 0, None)], map[], map[], map[], 1)
    {
      this.password := password;
      version := Two;
      dentries, data, xattrs, trigger := Some(map[]), map[], Some(map[]), true;
      inodes := V2(map[ROOT_INO := InodeRow(Dir, ModeFor(Dir, 0x1C0), m.uid, m.gid, 0, None)]);
      sequences := map[OfInodes := 1];
    }

    /** `INSERT INTO inodes_v2 ... SELECT ... FROM inodes`: every explicit number raises the new sequence. */
    method CopyRows(rows: InodesV1) returns (copy: Inodes)
      requires OfInodesV2 !in sequences && rows != map[]
      modifies `sequences
      ensures copy == Stripped(rows) && RowsKept(rows, copy)
      ensures sequences.Keys == old(sequences.Keys) + {OfInodesV2}
      ensures Mark(sequences) == old(Mark(sequences))
      ensures IsHighest(rows, sequences[OfInodesV2])
    {
      copy := map[];
      var todo := rows.Keys;
      while todo != {}
        invariant todo <= rows.Keys
        invariant copy.Keys == rows.Keys - todo && forall ino <- copy :: copy[ino] == rows[ino].row
        invariant sequences.Keys == old(sequences.Keys) + if todo == rows.Keys then {} else {OfInodesV2}
        invariant forall name :: name in old(sequences) ==> sequences[name] == old(sequences[name])
        invariant todo != rows.Keys ==>
                    sequences[OfInodesV2] in rows && forall ino <- rows :: ino !in todo ==> ino <= sequences[OfInodesV2]
        decreases todo
      {
        var ino :| ino in todo;
        var mark := if OfInodesV2 in sequences then Max(sequences[OfInodesV2], ino) else ino;
        copy, sequences := copy[ino := rows[ino].row], sequences[OfInodesV2 := mark];
        todo := todo - {ino};
      }
    }

    /** `migrate_to_v2`: the old mark is carried over while its row still exists. */
    method MigrateToV2() returns (ghost top: Ino)
      requires IsV1() && inodes.rows != map[]
      modifies this
      ensures IsV2()
      ensures RowsKept(old(inodes.rows), inodes.inodes)
      ensures inodes.inodes == Stripped(old(inodes.rows)) && dentries.value == NamesFromV1(old(inodes.rows))
      ensures data == old(data) && xattrs == old(xattrs) && password == old(password)
      ensures IsHighest(old(inodes.rows), top) && sequences[OfInodes] == Max(top, old(Mark(sequences)))
      ensures !trigger && OfInodesV2 !in sequences
    {
      var rows := inodes.rows;
      hide NamesFromV1, Stripped, UniqueV1, IsHighest, Mark, RowsKept;
      dentries := Some(NamesFromV1(rows));
      var copy;
      copy, top := Rebuild(rows);
      trigger := false;
      inodes, version := V2(copy), Two;
    }

    /** The rows go over, and then the mark. */
    method Rebuild(rows: InodesV1) returns (copy: Inodes, ghost top: Ino)
      requires OfInodesV2 !in sequences && rows != map[]
      modifies `sequences
      ensures copy == Stripped(rows) && RowsKept(rows, copy)
      ensures OfInodes in sequences && OfInodesV2 !in sequences
      ensures IsHighest(rows, top) && sequences[OfInodes] == Max(top, old(Mark(sequences)))
    {
      hide Stripped, RowsKept, IsHighest, Mark, Max;
      copy := CopyRows(rows);
      top := sequences[OfInodesV2];
      CarryMark();
    }

    /** The UPDATE of `sqlite_sequence`, and what DROP TABLE and RENAME do to it. */
    method CarryMark()
      requires OfInodesV2 in sequences
      modifies `sequences
      ensures sequences.Keys == old(sequences.Keys) - {OfInodesV2} + {OfInodes}
      ensures sequences[OfInodes] == Max(old(sequences[OfInodesV2]), old(Mark(sequences)))
    {
      var carried := Mark(sequences);
      sequences := sequences[OfInodesV2 := Max(sequences[OfInodesV2], carried)];
      sequences := sequences - {OfInodes};
      sequences := (sequences - {OfInodesV2})[OfInodes := sequences[OfInodesV2]];
    }

    /** `open_db_with`; `held` says whether another connection has the container to itself. A writable open
        upgrades format 1 and makes sure of the attribute table and its trigger; a format it does not know
        is left alone. */
    method Open(given: Bytes, held: bool, readonly: bool) returns (answer: OpenAnswer)
      requires version == One ==> IsV1() && inodes.rows != map[]
      requires version == Two ==> IsV2()
      modifies this
      ensures answer == if held then Busy else if given != old(password) then WrongPassword
                        else if old(version) == Newer then UnknownVersion else Opened
      ensures !answer.Opened? || readonly ==> unchanged(this)
      ensures answer.Opened? && !readonly ==> IsV2() && trigger && xattrs.Some? && password == old(password)
      ensures answer.Opened? && !readonly && old(version) == Two ==> Db() == old(Db())
      ensures answer.Opened? && !readonly && old(version) == One && OfInodes in old(sequences) &&
              (forall ino <- old(inodes.rows) :: ino <= old(sequences[OfInodes])) ==>
                Db() == MigratedTables(old(inodes.rows), old(data), old(Attributes()), old(sequences[OfInodes]))
      ensures answer.Opened? && !readonly && old(HoldsV1()) ==> Inv(Db())
      ensures answer.Opened? && !readonly && old(version) == One ==> RowsKept(old(inodes.rows), Db().inodes)
    {
      hide WellFormedV1, Inv, RowsKept;
      if held {
        return Busy;
      }
      if given != password {
        return WrongPassword;
      }
      if version == Newer {
        return UnknownVersion;
      }
      answer := Opened;
      if HoldsV1() {
        WellFormedMark(inodes.rows, data, Attributes(), sequences[OfInodes]);
        MigrationKeepsInv(inodes.rows, data, Attributes(), sequences[OfInodes]);
      }
      if !readonly {
        if version == One {
          ghost var top := MigrateToV2();
        }
        if xattrs.None? {
          xattrs := Some(map[]);
        }
        trigger := true;
      }
    }
  }
}
