/** What a rename means in terms of paths: a whole subtree moves, and nothing else does. */
module Paths {
  import opened Common
  import opened Schema
  import opened Tree
  import opened Calls
  import opened Invariant

  /** The walk along `path` never uses the name `key`. */
  ghost predicate Avoids(dentries: Dentries, from: Ino, path: Path, key: DentryKey) {
    path != [] ==>
      var init := path[..|path| - 1];
      && Avoids(dentries, from, init, key)
      && (Walk(dentries, from, init) == Some(key.parent) ==> path[|path| - 1] != key.name)
  }

  /** A walk that uses neither the old nor the new name is not touched by the move. */
  lemma {:induction false} WalkAvoiding(dentries: Dentries, key: DentryKey, newkey: DentryKey, from: Ino, path: Path)
    requires key in dentries && Avoids(dentries, from, path, key) && Avoids(dentries, from, path, newkey)
    ensures Walk(MovedNames(dentries, key, newkey), from, path) == Walk(dentries, from, path)
    decreases |path|
  {
    if path == [] {
    } else {
      WalkAvoiding(dentries, key, newkey, from, path[..|path| - 1]);
    }
  }

  /** A walk that never comes to the parent of a name does not use it. */
  lemma {:induction false} AvoidsUnreached(dentries: Dentries, from: Ino, path: Path, key: DentryKey)
    requires !Reaches(dentries, from, key.parent)
    ensures Avoids(dentries, from, path, key)
    decreases |path|
  {
    if path == [] {
    } else {
      AvoidsUnreached(dentries, from, path[..|path| - 1], key);
    }
  }

  /** No way leads from an inode to a directory that holds a name of it. */
  lemma {:induction false} NotAbove(inodes: Inodes, dentries: Dentries, key: DentryKey)
    requires TreeInv(inodes, dentries) && key in dentries
    ensures !Reaches(dentries, dentries[key], key.parent)
  {
    hide Walk, DirsReachable, AllNamed, OneNamePerDir, ValidName;
    if Reaches(dentries, dentries[key], key.parent) {
      var path :| Walk(dentries, dentries[key], path) == Some(key.parent);
      WalkExtend(dentries, dentries[key], path, key.name);
      Acyclic(inodes, dentries, dentries[key], path + [key.name]);
      assert false;
    }
  }

  /** A path from the root that does not begin with the path of a name does not use the name. */
  lemma {:induction false} AvoidsElsewhere(inodes: Inodes, dentries: Dentries, key: DentryKey, dir: Path, path: Path)
    requires TreeInv(inodes, dentries) && IsDir(inodes, key.parent)
    requires Walk(dentries, ROOT_INO, dir) == Some(key.parent)
    requires !(dir + [key.name] <= path)
    ensures Avoids(dentries, ROOT_INO, path, key)
    decreases |path|
  {
    hide Walk, TreeInv, IsDir;
    if path == [] {
    } else {
      var init := path[..|path| - 1];
      assert path == init + [path[|path| - 1]];
      AvoidsElsewhere(inodes, dentries, key, dir, init);
      if Walk(dentries, ROOT_INO, init) == Some(key.parent) {
        OnePathPerDir(inodes, dentries, init, dir);
      }
    }
  }

  /** A path that leads outside a subtree does not begin with the name of the subtree. */
  lemma {:induction false} OutsideAvoids(dentries: Dentries, key: DentryKey, dir: Path, path: Path, ino: Ino)
    requires key in dentries && Walk(dentries, ROOT_INO, dir) == Some(key.parent)
    requires Walk(dentries, ROOT_INO, path) == Some(ino) && !Reaches(dentries, dentries[key], ino)
    ensures !(dir + [key.name] <= path)
  {
    hide Walk;
    if dir + [key.name] <= path {
      var rest := path[|dir| + 1..];
      assert path == (dir + [key.name]) + rest;
      WalkExtend(dentries, ROOT_INO, dir, key.name);
      WalkConcat(dentries, ROOT_INO, dir + [key.name], rest);
      assert false;
    }
  }

  lemma {:induction false} NotOwnPrefix(dir: Path, name: Name)
    ensures !(dir + [name] <= dir)
  {
    assert |dir + [name]| > |dir|;
  }

  /** What hangs below the name that moves hangs below the new name, as it was. */
  lemma {:induction false} SubtreeMoves(inodes: Inodes, dentries: Dentries, key: DentryKey, newkey: DentryKey,
                                        oldDir: Path, newDir: Path, path: Path)
    requires TreeInv(inodes, dentries) && key in dentries && IsDir(inodes, newkey.parent)
    requires !Reaches(dentries, dentries[key], newkey.parent)
    requires Walk(dentries, ROOT_INO, oldDir) == Some(key.parent)
    requires Walk(dentries, ROOT_INO, newDir) == Some(newkey.parent)
    ensures Walk(MovedNames(dentries, key, newkey), ROOT_INO, newDir + [newkey.name] + path) ==
            Walk(dentries, ROOT_INO, oldDir + [key.name] + path)
  {
    var after := MovedNames(dentries, key, newkey);
    assert after[newkey] == dentries[key] && IsDir(inodes, key.parent);
    hide Walk, TreeInv, IsDir, Avoids, Reaches, MovedNames;
    OutsideAvoids(dentries, key, oldDir, newDir, newkey.parent);
    NotOwnPrefix(newDir, newkey.name);
    AvoidsElsewhere(inodes, dentries, key, oldDir, newDir);
    AvoidsElsewhere(inodes, dentries, newkey, newDir, newDir);
    WalkAvoiding(dentries, key, newkey, ROOT_INO, newDir);
    NotAbove(inodes, dentries, key);
    AvoidsUnreached(dentries, dentries[key], path, key);
    AvoidsUnreached(dentries, dentries[key], path, newkey);
    WalkAvoiding(dentries, key, newkey, dentries[key], path);
    WalkExtend(dentries, ROOT_INO, oldDir, key.name);
    WalkExtend(after, ROOT_INO, newDir, newkey.name);
    WalkConcat(dentries, ROOT_INO, oldDir + [key.name], path);
    WalkConcat(after, ROOT_INO, newDir + [newkey.name], path);
  }

  lemma {:induction false} ElsewhereStays(inodes: Inodes, dentries: Dentries, key: DentryKey, newkey: DentryKey,
                                          oldDir: Path, newDir: Path, path: Path)
    requires TreeInv(inodes, dentries) && key in dentries && IsDir(inodes, key.parent) && IsDir(inodes, newkey.parent)
    requires Walk(dentries, ROOT_INO, oldDir) == Some(key.parent)
    requires Walk(dentries, ROOT_INO, newDir) == Some(newkey.parent)
    requires !(oldDir + [key.name] <= path) && !(newDir + [newkey.name] <= path)
    ensures Walk(MovedNames(dentries, key, newkey), ROOT_INO, path) == Walk(dentries, ROOT_INO, path)
  {
    hide Walk, TreeInv, IsDir, Avoids, MovedNames;
    AvoidsElsewhere(inodes, dentries, key, oldDir, path);
    AvoidsElsewhere(inodes, dentries, newkey, newDir, path);
    WalkAvoiding(dentries, key, newkey, ROOT_INO, path);
  }

  /** The old name leads nowhere afterwards, unless the new name is an ancestor's: then the way to it is gone too. */
  lemma {:induction false} OldNameGone(inodes: Inodes, dentries: Dentries, key: DentryKey, newkey: DentryKey,
                                       oldDir: Path, newDir: Path)
    requires TreeInv(inodes, dentries) && key in dentries && key != newkey
    requires IsDir(inodes, key.parent) && IsDir(inodes, newkey.parent)
    requires Walk(dentries, ROOT_INO, oldDir) == Some(key.parent)
    requires Walk(dentries, ROOT_INO, newDir) == Some(newkey.parent)
    requires !(newDir + [newkey.name] <= oldDir)
    ensures Walk(MovedNames(dentries, key, newkey), ROOT_INO, oldDir + [key.name]) == None
  {
    assert key !in MovedNames(dentries, key, newkey);
    hide Walk, TreeInv, IsDir, MovedNames;
    NotOwnPrefix(oldDir, key.name);
    ElsewhereStays(inodes, dentries, key, newkey, oldDir, newDir, oldDir);
    WalkExtend(MovedNames(dentries, key, newkey), ROOT_INO, oldDir, key.name);
  }

  // --- rename ------------------------------------------------------------------

  /** The names after a successful rename to another name: the old one gone, the new one, whatever it was, taken over. */
  lemma {:induction false} RenamedDentries(t: Tables, key: DentryKey, newkey: DentryKey, flags: RenameFlags)
    requires DoRename(t, key, newkey, flags).reply.Done? && key != newkey
    ensures key in t.dentries
    ensures DoRename(t, key, newkey, flags).t.dentries == MovedNames(t.dentries, key, newkey)
    ensures newkey in t.dentries ==> EnsureRemovable(t, t.dentries[newkey]).None?
  {
    hide NamesOf, ChildrenOf;
  }

  /** A named inode may be replaced exactly when it has nothing below it. */
  lemma {:induction false} RemovableIff(t: Tables, key: DentryKey)
    requires Inv(t) && key in t.dentries
    ensures EnsureRemovable(t, t.dentries[key]).None? <==> ChildrenOf(t.dentries, t.dentries[key]) == {}
  {
    assert t.dentries[key] in t.inodes;
    hide Inv, ChildrenOf;
    if !IsDir(t.inodes, t.dentries[key]) { NoChildren(t, t.dentries[key]); }
  }

  /** When a rename succeeds: never with a flag it does not support, and over an existing name only if that
      is the name itself, or leads to another inode with nothing below it. A second name of the same inode fails. */
  lemma {:induction false} RenameDoneIff(t: Tables, key: DentryKey, newkey: DentryKey, flags: RenameFlags)
    requires Inv(t)
    ensures DoRename(t, key, newkey, flags).reply.Done? <==>
            && key in t.dentries && !flags.exchange && !flags.whiteout
            && (newkey in t.dentries ==>
                  && !flags.noreplace
                  && (t.dentries[newkey] == t.dentries[key] ==> newkey == key)
                  && (t.dentries[newkey] != t.dentries[key] ==> ChildrenOf(t.dentries, t.dentries[newkey]) == {}))
  {
    hide Inv, ChildrenOf, NamesOf, EnsureRemovable, Unlinked;
    if newkey in t.dentries { RemovableIff(t, newkey); }
  }

  /** What is replaced has nothing below it, so no other path leads through the new name. */
  lemma {:induction false} ReplacedIsLeaf(t: Tables, newkey: DentryKey, from: Ino, init: Path, name: Name)
    requires Inv(t) && newkey in t.dentries && EnsureRemovable(t, t.dentries[newkey]).None?
    requires Walk(t.dentries, from, init) == Some(t.dentries[newkey])
    ensures Walk(t.dentries, from, init + [name]) == None
  {
    NoChildren(t, t.dentries[newkey]);
    WalkExtend(t.dentries, from, init, name);
    hide Walk, Inv, EnsureRemovable;
    var below := DentryKey(t.dentries[newkey], name);
    assert below !in ChildrenOf(t.dentries, t.dentries[newkey]);
  }

  /** The new name is no ancestor of the old one: a rename that replaces one fails, as it is not empty. */
  lemma {:induction false} NewNotAboveOld(t: Tables, key: DentryKey, newkey: DentryKey, oldDir: Path, newDir: Path)
    requires Inv(t) && key in t.dentries && newkey in t.dentries && EnsureRemovable(t, t.dentries[newkey]).None?
    requires Walk(t.dentries, ROOT_INO, oldDir) == Some(key.parent)
    requires Walk(t.dentries, ROOT_INO, newDir) == Some(newkey.parent)
    ensures !(newDir + [newkey.name] <= oldDir)
  {
    hide Inv, EnsureRemovable, Walk;
    if newDir + [newkey.name] <= oldDir {
      var down := newDir + [newkey.name];
      WalkExtend(t.dentries, ROOT_INO, newDir, newkey.name);
      if down == oldDir {
        ReplacedIsLeaf(t, newkey, ROOT_INO, down, key.name);
        WalkExtend(t.dentries, ROOT_INO, down, key.name);
        assert false;
      } else {
        var name, rest := oldDir[|down|], oldDir[|down| + 1..];
        ReplacedIsLeaf(t, newkey, ROOT_INO, down, name);
        assert oldDir == (down + [name]) + rest;
        WalkPrefix(t.dentries, ROOT_INO, down + [name], rest);
        assert false;
      }
    }
  }

  lemma {:induction false} FreeNotAboveOld(t: Tables, key: DentryKey, newkey: DentryKey, oldDir: Path, newDir: Path)
    requires newkey !in t.dentries
    requires Walk(t.dentries, ROOT_INO, oldDir) == Some(key.parent)
    requires Walk(t.dentries, ROOT_INO, newDir) == Some(newkey.parent)
    ensures !(newDir + [newkey.name] <= oldDir)
  {
    hide Walk;
    if newDir + [newkey.name] <= oldDir {
      var rest := oldDir[|newDir| + 1..];
      assert oldDir == (newDir + [newkey.name]) + rest;
      WalkExtend(t.dentries, ROOT_INO, newDir, newkey.name);
      WalkPrefix(t.dentries, ROOT_INO, newDir + [newkey.name], rest);
      assert false;
    }
  }

  /** What the kernel's checks and the invariant say about the two names. */
  lemma {:induction false} RenameSetting(t: Tables, key: DentryKey, newkey: DentryKey, flags: RenameFlags)
    requires Inv(t) && Legal(t, Rename(key.parent, key.name, newkey.parent, newkey.name, flags)) && key in t.dentries
    ensures TreeInv(t.inodes, t.dentries) && IsDir(t.inodes, key.parent) && IsDir(t.inodes, newkey.parent)
    ensures !Reaches(t.dentries, t.dentries[key], newkey.parent)
  {
    hide Reaches, OneNamePerDir, AllNamed, DirsReachable, BlocksInv, XattrsInv, RowsInv, MarkInv, ValidName;
    assert key == DentryKey(key.parent, key.name);
    OutsideOwnSubtree(t, t.dentries[key], newkey.parent);
  }

  /** A rename moves a whole subtree and nothing else: each path below the new name leads where the same path
      below the old one led, nothing is left at the old name, and every other path is as it was. */
  lemma {:induction false} RenameMovesSubtree(t: Tables, key: DentryKey, newkey: DentryKey, flags: RenameFlags,
                                              oldDir: Path, newDir: Path, path: Path)
    requires Inv(t) && Legal(t, Rename(key.parent, key.name, newkey.parent, newkey.name, flags)) && key != newkey
    requires DoRename(t, key, newkey, flags).reply.Done?
    requires Walk(t.dentries, ROOT_INO, oldDir) == Some(key.parent)
    requires Walk(t.dentries, ROOT_INO, newDir) == Some(newkey.parent)
    ensures var after := DoRename(t, key, newkey, flags).t.dentries;
            && Walk(after, ROOT_INO, newDir + [newkey.name] + path) == Walk(t.dentries, ROOT_INO, oldDir + [key.name] + path)
            && Walk(after, ROOT_INO, oldDir + [key.name]) == None
            && (!(oldDir + [key.name] <= path) && !(newDir + [newkey.name] <= path) ==>
                  Walk(after, ROOT_INO, path) == Walk(t.dentries, ROOT_INO, path))
  {
    hide *;
    RenamedDentries(t, key, newkey, flags);
    RenameSetting(t, key, newkey, flags);
    if newkey in t.dentries {
      NewNotAboveOld(t, key, newkey, oldDir, newDir);
    } else {
      FreeNotAboveOld(t, key, newkey, oldDir, newDir);
    }
    SubtreeMoves(t.inodes, t.dentries, key, newkey, oldDir, newDir, path);
    OldNameGone(t.inodes, t.dentries, key, newkey, oldDir, newDir);
    if !(oldDir + [key.name] <= path) && !(newDir + [newkey.name] <= path) {
      ElsewhereStays(t.inodes, t.dentries, key, newkey, oldDir, newDir, path);
    }
  }
}
