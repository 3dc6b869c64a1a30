/**
 The namespace: the `dentries` table read as a tree of directories rooted at
 inode 1, in which every other kind of inode may have several names.
 */
module Tree {
  import opened Common
  import opened Schema

  type Path = seq<Name>

  /** What the kernel never passes down as a name: nothing, `.`, `..`, a `/` or a NUL. */
  predicate ValidName(name: Name) {
    name != [] && name != [46] && name != [46, 46] && 47 !in name && 0 !in name
  }

  /** The inode a path leads to, starting at `from`. */
  ghost function Walk(dentries: Dentries, from: Ino, path: Path): Option<Ino> {
    if path == [] then Some(from)
    else
      match Walk(dentries, from, path[..|path| - 1])
      case None => None
      case Some(dir) => Child(dentries, DentryKey(dir, path[|path| - 1]))
  }

  ghost predicate Reaches(dentries: Dentries, from: Ino, ino: Ino) {
    exists path: Path :: Walk(dentries, from, path) == Some(ino)
  }

  predicate IsDir(inodes: Inodes, ino: Ino) {
    ino in inodes && inodes[ino].kind.Dir?
  }

  /** Names lead from directories to live inodes, and never to the root. */
  ghost predicate NamesOk(inodes: Inodes, dentries: Dentries) {
    && IsDir(inodes, ROOT_INO)
    && forall k <- dentries ::
         ValidName(k.name) && IsDir(inodes, k.parent) && dentries[k] in inodes && dentries[k] != ROOT_INO
  }

  /** A directory has at most one name. */
  ghost predicate OneNamePerDir(inodes: Inodes, dentries: Dentries) {
    forall j, k :: j in dentries && k in dentries && dentries[j] == dentries[k] && IsDir(inodes, dentries[j]) ==> j == k
  }

  /** Every inode but the root has a name. */
  ghost predicate AllNamed(inodes: Inodes, dentries: Dentries) {
    forall ino <- inodes :: ino != ROOT_INO ==> Named(dentries, ino)
  }

  ghost predicate Named(dentries: Dentries, ino: Ino) {
    exists k :: k in dentries && dentries[k] == ino
  }

  ghost predicate DirsReachable(inodes: Inodes, dentries: Dentries) {
    forall dir <- inodes :: IsDir(inodes, dir) ==> Reaches(dentries, ROOT_INO, dir)
  }

  ghost predicate TreeInv(inodes: Inodes, dentries: Dentries) {
    && NamesOk(inodes, dentries)
    && OneNamePerDir(inodes, dentries)
    && AllNamed(inodes, dentries)
    && DirsReachable(inodes, dentries)
  }

  // --- walks -----------------------------------------------------------------

  lemma {:induction false} WalkExtend(dentries: Dentries, from: Ino, path: Path, name: Name)
    ensures Walk(dentries, from, path + [name]) ==
            match Walk(dentries, from, path) case None => None case Some(dir) => Child(dentries, DentryKey(dir, name))
  {
    assert (path + [name])[..|path|] == path;
  }

  lemma {:induction false} WalkConcat(dentries: Dentries, from: Ino, p: Path, q: Path)
    requires Walk(dentries, from, p).Some?
    ensures Walk(dentries, from, p + q) == Walk(dentries, Walk(dentries, from, p).value, q)
    decreases |q|
  {
    if q == [] {
      assert p + q == p;
    } else {
      var init := q[..|q| - 1];
      WalkConcat(dentries, from, p, init);
      assert p + q == (p + init) + [q[|q| - 1]];
      WalkExtend(dentries, from, p + init, q[|q| - 1]);
    }
  }

  lemma {:induction false} WalkMonotone(small: Dentries, big: Dentries, from: Ino, path: Path)
    requires forall k <- small :: k in big && big[k] == small[k]
    requires Walk(small, from, path).Some?
    ensures Walk(big, from, path) == Walk(small, from, path)
    decreases |path|
  {
    if path == [] {
    } else {
      WalkMonotone(small, big, from, path[..|path| - 1]);
    }
  }

  /** A walk from a directory ends at a live inode; from anything else it does not start. */
  lemma {:induction false} WalkLive(inodes: Inodes, dentries: Dentries, from: Ino, path: Path)
    requires NamesOk(inodes, dentries) && from in inodes && Walk(dentries, from, path).Some?
    ensures Walk(dentries, from, path).value in inodes
    ensures path != [] ==> IsDir(inodes, from) && Walk(dentries, from, path).value != ROOT_INO
    decreases |path|
  {
    if path == [] {
    } else {
      WalkLive(inodes, dentries, from, path[..|path| - 1]);
    }
  }

  // --- what the invariant means ------------------------------------------------

  /** Every inode can be reached from the root along names. */
  lemma {:induction false} EverythingReachable(inodes: Inodes, dentries: Dentries, ino: Ino)
    requires TreeInv(inodes, dentries) && ino in inodes
    ensures Reaches(dentries, ROOT_INO, ino)
  {
    if ino == ROOT_INO {
      assert Walk(dentries, ROOT_INO, []) == Some(ino);
    } else {
      var k :| k in dentries && dentries[k] == ino;
      var path :| Walk(dentries, ROOT_INO, path) == Some(k.parent);
      WalkExtend(dentries, ROOT_INO, path, k.name);
    }
  }

  /** A directory has exactly one path. */
  lemma {:induction false} OnePathPerDir(inodes: Inodes, dentries: Dentries, p: Path, q: Path)
    requires TreeInv(inodes, dentries)
    requires Walk(dentries, ROOT_INO, p).Some? && Walk(dentries, ROOT_INO, p) == Walk(dentries, ROOT_INO, q)
    requires IsDir(inodes, Walk(dentries, ROOT_INO, p).value)
    ensures p == q
    decreases |p|
  {
    WalkLive(inodes, dentries, ROOT_INO, p);
    WalkLive(inodes, dentries, ROOT_INO, q);
    if p == [] {
    } else {
      var p', q' := p[..|p| - 1], q[..|q| - 1];
      OnePathPerDir(inodes, dentries, p', q');
      assert p == p' + [p[|p| - 1]] && q == q' + [q[|q| - 1]];
    }
  }

  /** No way leads from an inode back to itself. */
  lemma {:induction false} Acyclic(inodes: Inodes, dentries: Dentries, ino: Ino, cycle: Path)
    requires TreeInv(inodes, dentries) && ino in inodes && cycle != []
    ensures Walk(dentries, ino, cycle) != Some(ino)
  {
    if Walk(dentries, ino, cycle) == Some(ino) {
      WalkLive(inodes, dentries, ino, cycle);
      var path :| Walk(dentries, ROOT_INO, path) == Some(ino);
      WalkConcat(dentries, ROOT_INO, path, cycle);
      OnePathPerDir(inodes, dentries, path, path + cycle);
      assert false;
    }
  }

  /** The parent of a directory is one, and the root has none. */
  lemma {:induction false} OneParent(inodes: Inodes, dentries: Dentries, dir: Ino)
    requires TreeInv(inodes, dentries) && IsDir(inodes, dir)
    ensures |NamesOf(dentries, dir)| == if dir == ROOT_INO then 0 else 1
  {
    if dir != ROOT_INO {
      var k :| k in dentries && dentries[k] == dir;
      assert NamesOf(dentries, dir) == {k};
    } else {
      assert NamesOf(dentries, dir) == {};
    }
  }

  // --- adding a name -----------------------------------------------------------

  lemma {:induction false} AddedName(inodes: Inodes, dentries: Dentries, key: DentryKey, ino: Ino)
    requires key !in dentries
    requires DirsReachable(inodes, dentries)
    ensures DirsReachable(inodes, dentries[key := ino])
  {
    var after := dentries[key := ino];
    forall dir <- inodes | IsDir(inodes, dir) ensures Reaches(after, ROOT_INO, dir) {
      var path :| Walk(dentries, ROOT_INO, path) == Some(dir);
      WalkMonotone(dentries, after, ROOT_INO, path);
    }
  }

  lemma {:induction false} StillNamed(dentries: Dentries, after: Dentries, ino: Ino)
    requires Named(dentries, ino)
    requires forall k <- dentries :: dentries[k] == ino ==> k in after && after[k] == ino
    ensures Named(after, ino)
  {
    var k :| k in dentries && dentries[k] == ino;
    assert k in after && after[k] == ino;
  }

  lemma {:induction false} AddedNamed(inodes: Inodes, dentries: Dentries, key: DentryKey, ino: Ino)
    requires AllNamed(inodes, dentries) && key !in dentries
    ensures AllNamed(inodes, dentries[key := ino]) && Named(dentries[key := ino], ino)
  {
    var after := dentries[key := ino];
    assert key in after && after[key] == ino;
    forall i <- inodes | i != ROOT_INO ensures Named(after, i) {
      StillNamed(dentries, after, i);
    }
  }

  /** A new inode under a directory. */
  lemma {:induction false} InsertKeepsTree(inodes: Inodes, dentries: Dentries, key: DentryKey, ino: Ino, row: InodeRow)
    requires TreeInv(inodes, dentries)
    requires IsDir(inodes, key.parent) && ValidName(key.name) && key !in dentries
    requires ino !in inodes && ino != ROOT_INO
    ensures TreeInv(inodes[ino := row], dentries[key := ino])
  {
    hide Walk, Reaches, ValidName, Named;
    AddedName(inodes, dentries, key, ino);
    ReachesChild(dentries[key := ino], key);
    AddedNamed(inodes, dentries, key, ino);
  }

  lemma {:induction false} ReachesChild(dentries: Dentries, key: DentryKey)
    requires key in dentries && Reaches(dentries, ROOT_INO, key.parent)
    ensures Reaches(dentries, ROOT_INO, dentries[key])
  {
    var path :| Walk(dentries, ROOT_INO, path) == Some(key.parent);
    WalkExtend(dentries, ROOT_INO, path, key.name);
  }

  /** Another name for an inode that is not a directory. */
  lemma {:induction false} LinkKeepsTree(inodes: Inodes, dentries: Dentries, key: DentryKey, ino: Ino)
    requires TreeInv(inodes, dentries)
    requires IsDir(inodes, key.parent) && ValidName(key.name) && key !in dentries
    requires ino in inodes && !IsDir(inodes, ino)
    ensures TreeInv(inodes, dentries[key := ino])
  {
    hide Walk, Reaches, ValidName, Named;
    AddedName(inodes, dentries, key, ino);
    AddedNamed(inodes, dentries, key, ino);
    hide DirsReachable, AllNamed;
  }

  // --- removing a name ---------------------------------------------------------

  /** Removing the name of an inode without children breaks no way to any other inode. */
  lemma {:induction false} WalkPastLeaf(dentries: Dentries, key: DentryKey, path: Path)
    requires key in dentries && ChildrenOf(dentries, dentries[key]) == {}
    requires Walk(dentries, ROOT_INO, path).Some? && Walk(dentries, ROOT_INO, path).value != dentries[key]
    ensures Walk(dentries - {key}, ROOT_INO, path) == Walk(dentries, ROOT_INO, path)
    decreases |path|
  {
    if path == [] {
    } else {
      var dir := Walk(dentries, ROOT_INO, path[..|path| - 1]).value;
      var last := DentryKey(dir, path[|path| - 1]);
      assert last in dentries && last in ChildrenOf(dentries, dir);
      WalkPastLeaf(dentries, key, path[..|path| - 1]);
    }
  }

  /** The other names of a childless inode: it has some exactly when it is no directory that loses its only one. */
  lemma {:induction false} OtherNames(inodes: Inodes, dentries: Dentries, key: DentryKey)
    requires OneNamePerDir(inodes, dentries) && key in dentries
    ensures Named(dentries - {key}, dentries[key]) <==> NamesOf(dentries - {key}, dentries[key]) != {}
    ensures Named(dentries - {key}, dentries[key]) ==> !IsDir(inodes, dentries[key])
  {
    var ino, cut := dentries[key], dentries - {key};
    if Named(cut, ino) {
      var k :| k in cut && cut[k] == ino;
      assert k in NamesOf(cut, ino) && k in dentries && dentries[k] == dentries[key] && k != key;
    }
    if k :| k in NamesOf(cut, ino) {
      assert k in cut && cut[k] == ino;
    }
  }

  lemma {:induction false} UnlinkReaches(inodes: Inodes, dentries: Dentries, key: DentryKey)
    requires DirsReachable(inodes, dentries)
    requires key in dentries && ChildrenOf(dentries, dentries[key]) == {}
    ensures DirsReachable(inodes - {dentries[key]}, dentries - {key})
  {
    forall dir <- inodes | IsDir(inodes, dir) && dir != dentries[key] ensures Reaches(dentries - {key}, ROOT_INO, dir) {
      var path :| Walk(dentries, ROOT_INO, path) == Some(dir);
      WalkPastLeaf(dentries, key, path);
    }
  }

  lemma {:induction false} UnlinkNamed(inodes: Inodes, dentries: Dentries, key: DentryKey)
    requires AllNamed(inodes, dentries) && key in dentries
    ensures AllNamed(inodes - {dentries[key]}, dentries - {key})
  {
    forall i <- inodes | i != ROOT_INO && i != dentries[key] ensures Named(dentries - {key}, i) {
      StillNamed(dentries, dentries - {key}, i);
    }
  }

  lemma {:induction false} UnlinkNamesOk(inodes: Inodes, dentries: Dentries, key: DentryKey)
    requires NamesOk(inodes, dentries)
    requires key in dentries && ChildrenOf(dentries, dentries[key]) == {}
    requires !Named(dentries - {key}, dentries[key])
    ensures NamesOk(inodes - {dentries[key]}, dentries - {key})
  {
    hide ValidName;
    var ino, cut := dentries[key], dentries - {key};
    forall k <- cut ensures k.parent != ino && cut[k] != ino {
      assert k.parent == ino ==> k in ChildrenOf(dentries, ino);
    }
  }

  /** A name goes, and with the last name the inode. */
  lemma {:induction false} UnlinkKeepsTree(inodes: Inodes, dentries: Dentries, key: DentryKey)
    requires TreeInv(inodes, dentries)
    requires key in dentries && ChildrenOf(dentries, dentries[key]) == {}
    ensures var gone := NamesOf(dentries - {key}, dentries[key]) == {};
            TreeInv(if gone then inodes - {dentries[key]} else inodes, dentries - {key})
  {
    var ino, cut := dentries[key], dentries - {key};
    OtherNames(inodes, dentries, key);
    UnlinkReaches(inodes, dentries, key);
    UnlinkNamed(inodes, dentries, key);
    if NamesOf(cut, ino) == {} {
      UnlinkNamesOk(inodes, dentries, key);
    }
    hide Reaches, ValidName, NamesOf, Named;
  }

  // --- moving a name -----------------------------------------------------------

  ghost function MovedNames(dentries: Dentries, key: DentryKey, newkey: DentryKey): Dentries
    requires key in dentries
  {
    (dentries - {key})[newkey := dentries[key]]
  }

  /** The way to the new parent does not use the name that moves: it would pass through the inode moved. */
  lemma {:induction false} WalkOutside(dentries: Dentries, key: DentryKey, newkey: DentryKey, path: Path, rest: Path)
    requires key in dentries && newkey !in dentries
    requires !Reaches(dentries, dentries[key], newkey.parent)
    requires Walk(dentries, ROOT_INO, path + rest) == Some(newkey.parent)
    ensures Walk(MovedNames(dentries, key, newkey), ROOT_INO, path) == Walk(dentries, ROOT_INO, path)
    ensures Walk(dentries, ROOT_INO, path).Some?
    decreases |path|
  {
    WalkPrefix(dentries, ROOT_INO, path, rest);
    if path == [] {
    } else {
      var init, name := path[..|path| - 1], path[|path| - 1];
      assert path + rest == init + ([name] + rest);
      WalkOutside(dentries, key, newkey, init, [name] + rest);
      WalkConcat(dentries, ROOT_INO, path, rest);
      assert Reaches(dentries, Walk(dentries, ROOT_INO, path).value, newkey.parent);
    }
  }

  lemma {:induction false} WalkPrefix(dentries: Dentries, from: Ino, path: Path, rest: Path)
    requires Walk(dentries, from, path + rest).Some?
    ensures Walk(dentries, from, path).Some?
    decreases |rest|
  {
    if rest == [] {
      assert path + rest == path;
    } else {
      assert (path + rest)[..|path + rest| - 1] == path + rest[..|rest| - 1];
      WalkPrefix(dentries, from, path, rest[..|rest| - 1]);
    }
  }

  /** Whatever directory had a path has one after the move. */
  lemma {:induction false} MovedReaches(inodes: Inodes, dentries: Dentries, key: DentryKey, newkey: DentryKey, path: Path)
    requires TreeInv(inodes, dentries)
    requires key in dentries && newkey !in dentries && IsDir(inodes, newkey.parent)
    requires !Reaches(dentries, dentries[key], newkey.parent)
    requires Walk(dentries, ROOT_INO, path).Some? && IsDir(inodes, Walk(dentries, ROOT_INO, path).value)
    ensures Reaches(MovedNames(dentries, key, newkey), ROOT_INO, Walk(dentries, ROOT_INO, path).value)
    decreases |path|
  {
    var after := MovedNames(dentries, key, newkey);
    if path == [] {
      assert Walk(after, ROOT_INO, []) == Some(ROOT_INO);
    } else {
      var init, name := path[..|path| - 1], path[|path| - 1];
      var last := DentryKey(Walk(dentries, ROOT_INO, init).value, name);
      assert last in dentries;
      if last == key {
        var up :| Walk(dentries, ROOT_INO, up) == Some(newkey.parent);
        assert up + [] == up;
        WalkOutside(dentries, key, newkey, up, []);
        WalkExtend(after, ROOT_INO, up, newkey.name);
      } else {
        MovedReaches(inodes, dentries, key, newkey, init);
        var up :| Walk(after, ROOT_INO, up) == Some(last.parent);
        WalkExtend(after, ROOT_INO, up, name);
      }
    }
  }

  lemma {:induction false} MovedNamed(inodes: Inodes, dentries: Dentries, key: DentryKey, newkey: DentryKey)
    requires AllNamed(inodes, dentries) && key in dentries && newkey !in dentries
    ensures AllNamed(inodes, MovedNames(dentries, key, newkey))
  {
    var after := MovedNames(dentries, key, newkey);
    forall i <- inodes | i != ROOT_INO ensures Named(after, i) {
      var k :| k in dentries && dentries[k] == i;
      var k' := if k == key then newkey else k;
      assert k' in after && after[k'] == i;
    }
  }

  lemma {:induction false} MovedDirsReachable(inodes: Inodes, dentries: Dentries, key: DentryKey, newkey: DentryKey)
    requires TreeInv(inodes, dentries)
    requires key in dentries && newkey !in dentries && IsDir(inodes, newkey.parent)
    requires !Reaches(dentries, dentries[key], newkey.parent)
    ensures DirsReachable(inodes, MovedNames(dentries, key, newkey))
  {
    forall dir <- inodes | IsDir(inodes, dir)
      ensures Reaches(MovedNames(dentries, key, newkey), ROOT_INO, dir)
    {
      var path :| Walk(dentries, ROOT_INO, path) == Some(dir);
      MovedReaches(inodes, dentries, key, newkey, path);
    }
  }

  /** A whole subtree, or one name of a file, moves to a free name outside itself. */
  lemma {:induction false} MoveKeepsTree(inodes: Inodes, dentries: Dentries, key: DentryKey, newkey: DentryKey)
    requires TreeInv(inodes, dentries)
    requires key in dentries && newkey !in dentries && IsDir(inodes, newkey.parent) && ValidName(newkey.name)
    requires !Reaches(dentries, dentries[key], newkey.parent)
    ensures TreeInv(inodes, MovedNames(dentries, key, newkey))
  {
    MovedDirsReachable(inodes, dentries, key, newkey);
    MovedNamed(inodes, dentries, key, newkey);
    hide DirsReachable, AllNamed, Reaches, ValidName;
  }
}
