# cofferFS in Dafny

cofferFS keeps a POSIX-like filesystem in one encrypted SQLite file. This project models the parts of it whose
correctness is not visible in any one function, and proves what they promise:

- **The filesystem over its tables** (`src/fs.rs`, `src/db.rs`). `Schema` has the tables `inodes`, `dentries`, `data`
  and `xattrs` and the AUTOINCREMENT mark as values, `Calls` what each call makes of them. The class
  `Filesystem.CofferFS` holds the tables as fields and carries the calls out statement by statement, with a rollback
  where the code leaves a transaction uncommitted; each method is proved to do what `Calls` says. About that,
  `Effects` and `Answers` say in their own words what is left in each table and what is answered, and
  `Tree`, `Paths`, `Invariant`, `Runs`, `Quota`, `Refinement` and `NameCounts` prove the theorems on whole runs:
  the names are one tree rooted at inode 1, a rename moves a subtree and nothing else, the 128 KiB blocks are flat
  files, no number is reused, the ceiling holds, errors change nothing, and `find_inconsistencies` finds nothing.
  `BlockStore` measures the block table against `FlatFile`, which says what POSIX.1-2017 promises of `read()`,
  `pwrite()` and `ftruncate()`. `Ordering` and `Listing` treat `readdir` and `listxattr` as a caller sees them,
  `Limits` builds the containers in which 32 bits are too few.
- **The container file** (`src/db.rs`). `Migration.Container` is created, opened and upgraded from version 1.
- **The vault registry** (`src/config.rs`). `Text` has the string functions the parser is built on, `Registry` parsing
  and printing, `Vaults` reading and rendering one section, `Editing` upsert and remove, and `ConfigFile.Config` is
  the object with its loops. `Settings` says what the lines of a hand-written file mean.
- **The processes of a container** (`src/main.rs`, `lock_exclusive` in `src/db.rs`). `MountProtocol` is a state machine
  in which any number of mounts, `passwd` and `compact` interleave step by step and may die at any point.
  `Mountinfo` is the decoder of `/proc/self/mountinfo`.

What the kernel checks before it passes a call down is the predicate `Invariant.Legal`: parents are live directories,
`unlink` is not called on directories, no directory is renamed into its own subtree, and names are not empty, `.` or
`..` and hold no `/` or NUL. Targets of symlinks are shorter than 4096 bytes, and names of attributes hold no NUL.
Everything else is left to the code, with its error answers.

Six promises hold under a condition. Each condition is proved exact, and a failing case is built:

- A ceiling is kept by all runs if and only if it is at most 2^63-1 (`Quota.QuotaIffFits`, `Quota.QuotaLost`):
  `SUM(size)` is a signed 64-bit sum, and the test is skipped when it fails.
- The link counts that are reported add up if and only if each fits into 32 bits (`NameCounts.NamesConserved`,
  `Limits.LinkCountWraps`).
- A probe of `listxattr` leads to a call that yields all names if and only if there are any and the list is shorter
  than 2^32 bytes (`Listing.ListXattrProbe`, `Limits.ListTooLong`). For `getxattr` it yields
  every value, and an empty one is said to be empty (`Listing.GetXattrProbe`).
- A vault survives upsert, print, parse and get if and only if it is `Vaults.Storable` (`Editing.UpsertSurvivesIff`,
  `Editing.QuotedIsLost`).
- `to_text` after `parse` is idempotent if and only if no line kept a carriage return (`Registry.PrintIdempotentIff`,
  `Registry.CarriageReturnIsLost`).
- One process at a time writes to a container, with its current key, if and only if no mount compacts on idle
  (`MountProtocol.AlwaysSafeIff`, `MountProtocol.StaleWriter`). The comment on `lock_exclusive` promises this of
  all mounts, but `cmd_mount` drops the lock when it returns, while the compaction thread runs until the process ends.

A write through the handle of a deleted file answers ENOENT except where the length test, which comes first, answers
EFBIG (`Runs.StaleHandle`). A rename onto another name of the same inode skips the removal and runs into the primary
key: EIO, with nothing changed; onto the same name it succeeds.

## Model

| member | source | states |
|---|---|---|
| FlatFile.Overwrite | src/fs.rs:1021-1047 | what a write means on one flat sequence of bytes: the written bytes where they were put, the old ones elsewhere, zeros in a gap |
| FlatFile.Resize | src/fs.rs:282-299 | what a truncate means on a flat file: the old bytes up to the new length, zeros beyond the old end |
| FlatFile.Slice | src/fs.rs:944-967 | what a read means on a flat file: the bytes from `offset` on, as many as were asked for and are there |
| BlockStore.WriteBlocksAt | src/fs.rs:1021-1046 | after the write loop every byte of every file is the written one inside the range and the old one outside, in all inodes |
| BlockStore.WriteBlocksFit | src/fs.rs:1021-1047 | a write leaves every block non-empty, at most 131072 bytes long, and ending at or below max(old size, end of the write) |
| BlockStore.WriteBlocksElsewhere | src/fs.rs:1021-1046 | a write touches no block of another inode |
| BlockStore.TruncatedAt | src/fs.rs:282-294 | after a truncate, inside a block or at its border, bytes past the length read as zero and all others are as before |
| BlockStore.TruncatedFit | src/fs.rs:282-294 | a truncate leaves no empty block and none that reaches past the new length |
| BlockStore.PastTheEndIsZero | src/fs.rs:154-166 | when blocks fit the size, every byte past the size is zero, so growing a file again cannot bring old bytes back |
| BlockStore.WriteRefines | src/fs.rs:1021-1047 | the write loop over blocks is one overwrite of the flat file, for every offset, length and set of short or missing blocks, and leaves the flat view of every other inode alone |
| BlockStore.TruncateRefines | src/fs.rs:282-299 | the truncate over blocks is one resize of the flat file and leaves every other inode alone |
| Tree.EverythingReachable | src/db.rs:205-227 | in a tree state a walk along names leads from inode 1 to every inode |
| Tree.OnePathPerDir | src/fs.rs:1113-1124 | a directory has exactly one path from the root |
| Tree.Acyclic | src/fs.rs:1190-1194 | no walk along names leads from an inode back to itself |
| Tree.OneParent | src/fs.rs:1110-1124 | every directory but the root has exactly one name, the root none |
| Tree.InsertKeepsTree | src/fs.rs:175-195 | a new inode under a live directory keeps the tree |
| Tree.LinkKeepsTree | src/fs.rs:1190-1247 | another name for something that is no directory keeps the tree |
| Tree.UnlinkKeepsTree | src/fs.rs:207-227 | removing a name of a childless inode, and the inode with its last name, keeps the tree |
| Tree.MoveKeepsTree | src/fs.rs:820-828 | moving a name, with the whole subtree below it, to a free name outside the subtree keeps the tree: everything is still reachable |
| Paths.RenameMovesSubtree | src/fs.rs:743-834 | a successful rename moves a subtree and nothing else: every path below the new name leads where the same path below the old name led, the old name leads nowhere, and every path that begins with neither leads where it did |
| Paths.RenamedDentries | src/fs.rs:803-828 | the names after a successful rename are the old ones with one key exchanged; a name that was replaced led to another inode that could be removed |
| Paths.RenameDoneIff | src/fs.rs:788-828 | a rename succeeds if and only if the source is there, no exchange or whiteout is asked for, and the new name is free or, without NOREPLACE, is the old name itself or leads to another inode with nothing below it |
| Invariant.FreshInv | src/db.rs:246-259 | a newly created container satisfies the invariant |
| Invariant.ModeForBits | src/fs.rs:587-588 | a new inode has the type bits of its kind (040000, 0100000, 0120000) and the twelve permission bits asked for |
| Invariant.ChmodBits | src/fs.rs:469-475 | chmod keeps the type bits and sets all twelve permission bits |
| Invariant.DropSetidBits | src/fs.rs:249-265 | setuid is cleared, setgid exactly where group-execute is set, and every other bit stays |
| Invariant.UnlinkKeepsInv | src/fs.rs:211-227 | unlinking keeps the invariant: blocks and attributes go with the inode, and only with its last name |
| Invariant.ReplaceKeepsInv | src/fs.rs:803-828 | a rename over another inode keeps the invariant |
| Invariant.RenameKeepsInv | src/fs.rs:743-834 | rename keeps the invariant, whatever its flags and its answer |
| Invariant.ResizeKeepsInv | src/fs.rs:282-299 | truncate keeps the invariant, block sizes included |
| Invariant.WriteKeepsInv | src/fs.rs:988-1069 | write keeps the invariant, block sizes included |
| Invariant.PrivDropKeepsInv | src/fs.rs:249-269 | dropping privileges keeps the invariant, type bits included |
| Invariant.SetattrKeepsInv | src/fs.rs:469-528 | setattr keeps the invariant, with any combination of mode, owner and size |
| Invariant.CallKeepsInv | src/fs.rs:550-1430 | every modifying call the kernel may pass down keeps the invariant: a tree rooted at inode 1, blocks and attributes of live inodes only, block bounds, type bits that agree with the kind, numbers below the AUTOINCREMENT mark |
| Runs.RunKeepsInv | src/fs.rs:382-1430 | the invariant holds in every state of every run of calls, over any number of mounts |
| Runs.CallAges | src/fs.rs:174-195 | after any call every live inode was live before with the same kind and target, or has a number above all numbers handed out so far |
| Runs.NeverReused | src/db.rs:147-164 | over any run an inode number that is free again stays free, and a live one keeps its kind and symlink target |
| Runs.StaleHandle | src/fs.rs:988-1011 | once a file is gone it is gone in every later state, and a write through a handle to it changes nothing and answers ENOENT, or EFBIG where the length test comes first |
| Runs.ErrorChangesNothing | src/fs.rs:447-533 | every call that answers with an error leaves all four tables and the mark as they were |
| Runs.PrivilegesDropped | src/fs.rs:512-528 | after a flagged write, a truncate by anyone but root and a chown of a non-directory (the last two without a mode), setuid is clear, setgid with group-execute is clear, `security.capability` is gone, and all other mode bits and attributes, of every inode, are unchanged |
| Runs.PrivilegesKept | src/fs.rs:249-269 | no other call changes the mode of an inode, but for a setattr that sets one |
| Effects.CallNames | src/fs.rs:550-1270 | what every name leads to after every call: mkdir, create, symlink and link set one name, unlink and rmdir clear one, rename moves one, and nothing else and no failure changes any |
| Effects.CallMark | src/fs.rs:174-195 | the next number goes up by one with every inode that is made, and by nothing else |
| Effects.LiveIffNamed | src/fs.rs:207-227 | in every valid container exactly those inodes are live that have a name, and the root |
| Effects.CallNewRow | src/fs.rs:174-195 | the row of a new inode: the next number, kind, type bits and permissions asked for, user and group of the mount, size and target; no other call makes one |
| Effects.CallKeptRow | src/fs.rs:469-528 | kind, target, owner, group, size and mode of every surviving inode after every call: a setattr sets exactly what it was asked to, a write extends, privileges are dropped where they must be, and all else stays |
| Effects.CapabilityIs | src/fs.rs:266-267 | the attribute dropped with privileges is `security.capability` |
| Effects.CallAttrs | src/fs.rs:249-280 | every attribute after every call: set to the value given, removed, dropped with privileges, gone with its inode, and otherwise as it was, of every inode |
| Effects.RunAttrs | src/fs.rs:1272-1430 | after any run every attribute has exactly the value that the history of successful calls describes, or is not there |
| Answers.MkdirAnswer | src/fs.rs:550-603 | EEXIST, EIO when the numbers are used up, or the new inode with kind, size, owner, permissions and link count |
| Answers.CreateAnswer | src/fs.rs:848-916 | EEXIST, ENOSPC when the ceiling is reached or the numbers are used up, or the new inode described |
| Answers.SymlinkAnswer | src/fs.rs:688-741 | EEXIST, ENOSPC when the target would pass the ceiling, EIO, or the new inode described |
| Answers.LinkAnswer | src/fs.rs:1195-1270 | ENOENT, EPERM, EEXIST, or the inode described: a file with n names answers that it has n + 1, in 32 bits |
| Answers.UnlinkAnswer | src/fs.rs:605-640 | ENOENT exactly when there is no such name |
| Answers.RmdirAnswer | src/fs.rs:642-686 | ENOENT, ENOTEMPTY exactly when something is below, else done; never EBUSY in a valid container |
| Answers.RenameAnswer | src/fs.rs:770-834 | each error of rename exactly when, in the order of the tests |
| Answers.SetattrAnswer | src/fs.rs:455-537 | ENOENT, EFBIG, ENOSPC exactly when the new size would pass the ceiling, or the inode described as it is afterwards |
| Answers.WriteAnswer | src/fs.rs:988-1068 | EFBIG, ENOENT, ENOSPC exactly when the file would grow and the sum would pass the ceiling, or the number of bytes |
| Answers.SetXattrAnswer | src/fs.rs:1295-1355 | each error of setxattr exactly when, with CREATE and REPLACE, in the order of the tests |
| Answers.RemoveXattrAnswer | src/fs.rs:1404-1430 | ENODATA exactly when there is no such attribute |
| Answers.WriteRefusedIff | src/fs.rs:1012-1020 | within a ceiling of 63 bits a write is refused for space if and only if the sum after it would pass the ceiling, and else written in full |
| Answers.ReachableWrite | src/fs.rs:1012-1020 | the same in every state of every run of a container created with such a ceiling |
| Answers.SetattrRefusedIff | src/fs.rs:489-500 | the same of a setattr that sets a size |
| Answers.SymlinkRefusedIff | src/fs.rs:717-724 | the same of a symlink and its target |
| Answers.CreateRefusedIff | src/fs.rs:886-893 | a create is refused if and only if the ceiling is reached |
| Answers.NoCeiling | src/fs.rs:1013-1020 | without a ceiling nothing is refused for space, but a create when there are no more numbers |
| Quota.CallHoldsQuota | src/fs.rs:489-499 | with a ceiling of at most 2^63-1 a call never takes the sum of all sizes past it |
| Quota.RunHoldsQuota | src/fs.rs:1012-1020 | over any run the sum stays at or below such a ceiling, so SQLite can always compute it and no test is ever skipped |
| Quota.QuotaLost | src/fs.rs:168-172 | with a ceiling of 2^63 or more a run of creates and truncates goes past it, as the tests are skipped once the sum overflows |
| Quota.QuotaIffFits | src/fs.rs:886-893 | a ceiling is never exceeded by any run of any new container if and only if it is at most 2^63-1 |
| Refinement.ChangedContent | src/fs.rs:484-502 | setattr resizes the content of its inode when it has a size, and touches no other content |
| Refinement.WriteContent | src/fs.rs:1012-1069 | a write overwrites the content of its inode and touches no other; an empty one still extends the file to its offset |
| Refinement.NewContent | src/fs.rs:175-195 | a new inode holds no old bytes |
| Refinement.RenameContent | src/fs.rs:803-834 | a rename changes the bytes of no inode that survives it |
| Refinement.CallRefines | src/fs.rs:550-1430 | every call does to the bytes of every live inode what it does to a flat file, and an error does nothing |
| Refinement.RunRefines | src/fs.rs:918-1069 | after any run every file holds exactly the bytes that the history of successful calls since its creation describes |
| Refinement.ReadAfterRun | src/fs.rs:919-968 | a read after any run yields exactly that slice of the history of its file; once the file is gone, every read through the handle, at any later time, is ENOENT |
| NameCounts.ConsistentIff | src/db.rs:205-227 | `find_inconsistencies` is (0, 0) if and only if every name leads to an inode and every inode but the root has a name |
| NameCounts.DanglingCounted | src/db.rs:214-227 | if the row of an inode is lost, the first count is the number of its names and the second 0 |
| NameCounts.NamelessCounted | src/db.rs:214-227 | if the names of an inode are lost, the first count is 0 and the second 1 |
| NameCounts.NamesConserved | src/fs.rs:120-125 | the number of names is the sum of the link counts of all non-directories plus the number of directories minus one; of the 32-bit counts that are reported this holds if and only if every file has fewer than 2^32 names |
| NameCounts.ReportedSum | src/fs.rs:105-125 | the link counts that stat answers add up to the true ones if and only if each of them fits into 32 bits |
| NameCounts.FewNamesFit | src/fs.rs:105-125 | they all fit as long as there are fewer than 2^32 names in all |
| Limits.LinkCountWraps | src/fs.rs:105-125 | a container reachable by one create and 2^32 - 1 links, whose file has 2^32 names and is reported with none, so that reported counts do not add up |
| NameCounts.NamesCounted | src/fs.rs:803-828 | a successful mkdir, create, symlink and link adds one name, unlink and rmdir remove one, rename removes one exactly when it replaces another inode, nothing else and no failure changes the number |
| NameCounts.CheckFindsNothing | src/db.rs:205-227 | in every container reachable from a new one `find_inconsistencies` is (0, 0), everything is reachable from inode 1, each directory but the root has one name, names add up in the true counts, and in the reported ones exactly when each fits into 32 bits |
| Migration.PathsPreserved | src/db.rs:174-175 | a walk along any path from any inode leads to the same inode before and after the migration |
| Migration.OneNameEach | src/db.rs:174-175 | after the migration every inode but the root has exactly the name it had |
| Migration.MigrationKeepsInv | src/db.rs:165-203 | a well-formed container of version 1 satisfies the whole invariant of version 2 after the migration |
| Migration.MigrationKeepsNames | src/db.rs:205-227 | after the migration all paths are preserved, every inode but the root has one name, and `find_inconsistencies` is (0, 0) |
| Migration.NumbersSurviveMigration | src/db.rs:157-164 | in any run after the migration a live inode is one of the migrated ones with its kind, or has a number above every number version 1 handed out, deleted files included |
| Migration.Container.constructor | src/db.rs:229-282 | a new container has version 2, the password given, the trigger, and as only row inode 1, a directory with mode 040700 of the user; the mark is 1 |
| Migration.Container.CopyRows | src/db.rs:189-190 | every inode is copied with its own kind, mode, user, group, size and target, none is added, and the mark of the new table is the highest number copied |
| Migration.Container.Rebuild | src/db.rs:177-198 | the copied rows, and as mark the greater of the highest number and the old mark |
| Migration.Container.CarryMark | src/db.rs:191-198 | the new mark is the greater of the two, or its own if the old one is missing, and is the only one left under the old name |
| Migration.Container.MigrateToV2 | src/db.rs:165-203 | the same inodes, each with its own kind, mode, user, group, size and target, the migrated names, the greater mark, the same blocks and attributes; the trigger is lost with the old table |
| Migration.Container.Open | src/db.rs:391-465 | busy, a wrong password and an unknown version are told apart in that order and change nothing, and neither does a read-only open; a writable one ends in version 2 with attribute table and trigger, keeps version 2 tables, and of version 1 keeps every inode column by column, in tables that satisfy the invariant if they were well formed |
| Ordering.SortedIsOrder | src/fs.rs:1130-1138 | `ORDER BY name` yields every name once, in strictly ascending byte order |
| Ordering.LessIff | src/fs.rs:1130-1138 | the first byte in which two names differ decides, and of two that do not differ the shorter comes first |
| Listing.ChildEntryIff | src/fs.rs:1135-1152 | an entry is listed if and only if it is a name of the directory with the inode behind it and the kind of that inode |
| Listing.LookupFindsListed | src/fs.rs:396-411 | in a container without dangling names lookup is never EIO, answers ENOENT exactly for names that are not listed, and otherwise describes the one listed inode: kind, size, owner, the low twelve mode bits, and its number of names in 32 bits or 2 for a directory |
| Calls.AttrDescribes | src/fs.rs:327-350 | the attributes answered are the columns of the row, the low twelve bits of the mode, and the number of names in 32 bits or 2 for a directory |
| Listing.AnswerIsPage | src/fs.rs:1160-1165 | an answer holds the next entries that fit, and its last offset is the place of the first one that did not |
| Listing.ResumeAnywhere | src/fs.rs:1160-1165 | the offset that comes with any entry of an answer is the place after it, so that a caller may resume after any of them |
| Listing.PageFills | src/fs.rs:1160-1165 | an answer fits into the buffer, and one entry more would not have |
| Listing.PagingComplete | src/fs.rs:1107-1167 | resuming at the last offset returned, with buffers of any sizes that take any one entry, collects the whole listing, each entry once and in order |
| Listing.ListedIffFound | src/fs.rs:133-138 | a name is listed if and only if lookup finds it, with the same inode and its kind |
| Listing.ListedOnceInOrder | src/fs.rs:1126-1158 | the listing is the directory as `.`, its parent as `..`, both of kind directory, and the children in name order, no name twice |
| Listing.ParentIsTheOne | src/fs.rs:1110-1124 | `..` is the parent in the one name the directory has |
| Listing.ParentOfDir | src/fs.rs:1110-1124 | the root is its own parent, and every other directory has one parent, which is a live directory |
| Listing.SplitUndoesList | src/fs.rs:1386-1397 | taking the listxattr answer apart at NULs gives back the names, for all names without NUL |
| Listing.ListXattrComplete | src/fs.rs:1379-1402 | in every state that satisfies the invariant the listxattr answer taken apart is exactly the names of the inode, sorted |
| Listing.GetXattrProbe | src/fs.rs:1358-1377 | in every state that satisfies the invariant getxattr with size 0 says exactly how long a value is, that much room or more yields it (an empty one is said to be empty again), less is ERANGE, and no value is ENODATA |
| Listing.ListXattrProbe | src/fs.rs:1379-1402 | in every such state listxattr with size 0 and then with the size it gave yields a list that taken apart is all names in order, if and only if there are any and the list is shorter than 2^32 bytes; the exact cases of ERANGE and of no names |
| Listing.FewXattrsListed | src/fs.rs:1379-1402 | fewer than 2^24 attributes are always listed that way |
| Limits.ListTooLong | src/fs.rs:352-363 | a reachable container whose root has a list of 2^32 + 29 bytes: the probe says 29 and the call with 29 fails |
| Filesystem.CofferFS.constructor | src/main.rs:565 | the filesystem works on the tables of the container it is given |
| Filesystem.CofferFS.Rollback | src/fs.rs:447-454 | a transaction that is dropped restores the tables |
| Filesystem.CofferFS.PutBlock | src/fs.rs:154-166 | stores a block, or deletes it when it is empty |
| Filesystem.CofferFS.CurrentTotalSize | src/fs.rs:168-172 | the sum of all sizes, or nothing when 63 bits cannot hold it |
| Filesystem.CofferFS.Exceeds | src/fs.rs:1013-1020 | whether growth would pass the ceiling; never when there is none or no sum |
| Filesystem.CofferFS.InsertChild | src/fs.rs:174-195 | one inode under the next number and one name for it; nothing when the numbers are used up, and a refusal when the name is taken |
| Filesystem.CofferFS.LinkDentry | src/fs.rs:197-205 | one more name, refused exactly when parent and name are taken |
| Filesystem.CofferFS.DeleteInode | src/fs.rs:271-280 | the row, all blocks and all attributes of one inode go, nothing else does |
| Filesystem.CofferFS.UnlinkDentry | src/fs.rs:207-227 | one name goes, and the inode exactly when that was its last |
| Filesystem.CofferFS.KillPriv | src/fs.rs:249-269 | mode bits and capability of one inode are dropped |
| Filesystem.CofferFS.ClearSetid | src/fs.rs:260-265 | the two mode updates on the row of one inode |
| Filesystem.CofferFS.ClearBits | src/fs.rs:260-265 | the two updates one after the other compute the mode without its privileges |
| Filesystem.CofferFS.TruncateInode | src/fs.rs:282-299 | blocks and size after a truncate, the resize of `BlockStore.TruncateRefines` |
| Filesystem.CofferFS.Mkdir | src/fs.rs:550-603 | the tables and the answer of mkdir, EEXIST and a full number range included |
| Filesystem.CofferFS.Create | src/fs.rs:848-916 | the tables and the answer of create, ENOSPC of the ceiling included |
| Filesystem.CofferFS.Symlink | src/fs.rs:688-741 | the tables and the answer of symlink |
| Filesystem.CofferFS.Link | src/fs.rs:1190-1270 | the tables and the answer of link: ENOENT, EPERM, EEXIST or one more name with the new link count |
| Filesystem.CofferFS.Unlink | src/fs.rs:605-640 | the tables and the answer of unlink |
| Filesystem.CofferFS.Rmdir | src/fs.rs:642-686 | the tables and the answer of rmdir: ENOENT, EBUSY, ENOTEMPTY or the directory gone |
| Filesystem.CofferFS.Rename | src/fs.rs:743-834 | the tables and the answer of rename: a replaced name and perhaps its inode go, the primary-key clash with another name of the same inode is EIO with everything restored |
| Filesystem.CofferFS.ChangeOwnerAndMode | src/fs.rs:469-483 | mode, owner and group of one row, each only if asked for |
| Filesystem.CofferFS.Setattr | src/fs.rs:424-538 | the tables and the answer of setattr; EFBIG and ENOSPC undo the mode and the owner already set |
| Filesystem.CofferFS.Read | src/fs.rs:919-968 | the block loop returns exactly the slice of the flat content, also where `offset + size` wraps around at 64 bits; a dead inode answers ENOENT |
| Filesystem.CofferFS.Write | src/fs.rs:971-1069 | the tables and the answer of write, in the order of the tests |
| Filesystem.CofferFS.WriteAll | src/fs.rs:1021-1046 | the loop over block buffers stores what the specification of the write says, block by block |
| Filesystem.CofferFS.Patch | src/fs.rs:1035-1039 | a block buffer grown with zeros and patched in place is an overwrite of it |
| Filesystem.CofferFS.SetXattr | src/fs.rs:1272-1356 | the tables and the answer of setxattr: ERANGE, E2BIG, ENOENT, EEXIST, ENODATA or the value stored |
| Filesystem.CofferFS.RemoveXattr | src/fs.rs:1404-1430 | the tables and the answer of removexattr |
| Filesystem.CofferFS.GetXattr | src/fs.rs:1358-1377 | in a valid container size 0 yields the exact length of a value that is there, and room for it yields the value; the answers are those of `Listing.GetXattrProbe` |
| Filesystem.CofferFS.ListXattr | src/fs.rs:1379-1402 | the loop over the names builds the NUL-terminated list, answered as in `Listing.ListXattrProbe` |
| Filesystem.CofferFS.Lookup | src/fs.rs:396-411 | in a valid container the answer is ENOENT or an entry and never EIO: an entry exactly for a name that is listed, which describes the listed inode; the answers are those of `Listing.LookupFindsListed` |
| Filesystem.CofferFS.Readdir | src/fs.rs:1107-1167 | the answer for an offset and a buffer of so many bytes: entries of the directory, with `..` its one parent |
| Filesystem.CofferFS.FillReply | src/fs.rs:1160-1165 | the loop over the entries stops at the first one that the bytes left in the buffer do not hold |
| Filesystem.CofferFS.Dispatch | src/fs.rs:382-1430 | any call in any state that satisfies the invariant: its tables and answer, the invariant again, and no change on an error |
| Mountinfo.UnescapeMountinfo | src/main.rs:916-929 | the loop computes the decoding |
| Mountinfo.UnescapeUndoesEscape | src/main.rs:913-931 | decoding gives back every byte string that was escaped with \040, \011, \012 and \134 as in proc(5) |
| Mountinfo.UnescapePlain | src/main.rs:916-929 | a field without a whole escape is its own meaning, partial ones included |
| Mountinfo.UnescapeCode | src/main.rs:921-924 | three octal digits up to 377 after a backslash are the byte of that value, and decoding goes on after them |
| Mountinfo.CodeFitsIff | src/main.rs:922 | the sum of an octal escape stays within 8 bits if and only if its first digit is 3 or less |
| Mountinfo.EscapeStartsLow | src/main.rs:913-922 | in an escaped path, for every path, the first digit after a backslash is 0 or 1 |
| Mountinfo.EscapedNeverWraps | src/main.rs:913-922 | decoding an escaped path never leaves 8 bits, at any escape |
| MountProtocol.StepKeepsInv | src/main.rs:486-670 | every step of mount, passwd and compact, forks, returns, kills and readers included, keeps the protocol invariant |
| MountProtocol.RunKeepsInv | src/main.rs:486-670 | the protocol invariant holds in every state of every interleaving of any number of processes |
| MountProtocol.MutualExclusion | src/db.rs:567-609 | two processes that hold the lock and are not parents on their way out are one and the same |
| MountProtocol.LockHeldThroughout | src/main.rs:501-507 | from the moment a mount has the lock until the last process that inherited it ends or returns from `cmd_mount`, over both forks, the lock is held without a gap and by the same open file |
| MountProtocol.ConnectionsCurrent | src/main.rs:501-507 | every connection is keyed with the current key of the container, in every state, but perhaps one of a mount that has returned and is about to end |
| MountProtocol.AlwaysSafeIff | src/main.rs:661-670 | in all runs at most one process can write, and with the current key, if and only if no mount compacts on idle |
| MountProtocol.TwoWriters | src/main.rs:661-670 | a run in which a mount has returned, with its compaction thread still to be reckoned with, and a `passwd` holds the lock: both can write |
| MountProtocol.StaleWriter | src/main.rs:713-759 | that run goes on: the key is changed, and the compaction still possible has the old one |
| MountProtocol.ServesThroughOwnConnection | src/main.rs:633-658 | a mount serves only through a connection it opened itself, after the last fork, whose fcntl locks it holds, and which is exclusive or has mapped a -shm file that no reader has started afresh |
| MountProtocol.DaemonServes | src/main.rs:633-665 | a background mount gets to serve, in normal and in exclusive mode |
| MountProtocol.ForegroundServes | src/main.rs:610-665 | a foreground mount gets to serve, through the connection it has or an exclusive one of its own |
| MountProtocol.ReopenSucceeds | src/main.rs:643-658 | the second opening after the forks, in either mode, meets neither another key nor an exclusive connection of another process |
| MountProtocol.InheritedConnectionGoesStale | src/main.rs:633-641 | there is a run in which the connection a daemon inherits has lost its locks and its -shm file, which is why it is replaced |
| Text.LinesOfJoin | src/config.rs:165 | lines written one by one come back as they were, but for a carriage return at the end of one |
| Text.LinesUnfinished | src/config.rs:165 | a last line without a newline is a line as well, and keeps its carriage return |
| Text.PopBlankOfJoin | src/config.rs:294-297 | popping newlines off the text drops the empty lines at its end and nothing else |
| Registry.ParsedIsWellFormed | src/config.rs:162-184 | what parses has valid, pairwise different section names, and no header among the lines of a section |
| Settings.HeaderRead | src/config.rs:166-172 | `[name]` with any white space around brackets and name is a header of that name |
| Settings.BrokenHeader | src/config.rs:167-170 | a line that starts with a bracket and does not end in one is a broken header |
| Settings.NoHeader | src/config.rs:166-181 | any line whose first character is not a bracket is no header |
| Settings.ParseStopsAt | src/config.rs:162-184 | parsing stops at the first line that is an error, with its number, as a broken header, an invalid alias or a name that an earlier header had; without one it succeeds |
| Settings.SectionsAreHeaders | src/config.rs:167-176 | there is a section for every header that was read and for nothing else |
| Settings.AliasShape | src/config.rs:105-118 | a valid alias has no slash, blank or bracket and does not begin like a flag or a hidden file |
| Registry.ParseAllLines | src/config.rs:162-184 | parsing the lines of a well-formed registry gives exactly that registry |
| Registry.ParseUndoesPrint | src/config.rs:281-299 | printing and parsing gives a well-formed registry back, but for blank lines at its end and carriage returns at the ends of lines |
| Registry.PrintIdempotentIff | src/config.rs:281-299 | for every text that parses, its printed form parses and prints to itself, if and only if no line kept a carriage return |
| Registry.CarriageReturnIsLost | src/config.rs:281-299 | a text of one line that ends in a carriage return is one whose printed form does not print to itself |
| Vaults.ReadRendered | src/config.rs:206-235 | a rendered line reads back as its key and its value unquoted, whatever the value |
| Vaults.ReadStripped | src/config.rs:202-235 | a carriage return at the end of a line does not change what it sets |
| Vaults.RenderedReadsBack | src/config.rs:337-367 | a rendered vault reads back with every value trimmed, unquoted and its paths expanded, or is refused exactly when a value is empty |
| Vaults.ReadsBackIff | src/config.rs:194-250 | that is the same vault if and only if its values are trimmed, not empty and not quoted, and its paths do not ask for the home directory |
| Vaults.UnquoteSameIff | src/config.rs:120-127 | unquoting changes nothing if and only if the value is trimmed and not in matching quotes |
| Settings.RemarkRead | src/config.rs:138-141 | a line of white space, or whose first other character is # or ;, sets nothing |
| Settings.RemarkAnywhere | src/config.rs:202-205 | such lines may stand anywhere in a section without changing its vault or its error |
| Settings.NoEqualsSign | src/config.rs:206-208 | any other line without an equals sign is an error |
| Settings.SettingRead | src/config.rs:206-235 | key = value with any white space sets exactly that one of the ten settings, or is no value, an unknown key, or a flag or mode that is none |
| Settings.BareValue | src/config.rs:120-127 | a value that is not in quotes is what is left without the white space around it |
| Settings.QuotedValue | src/config.rs:120-127 | a value in two quotes of one kind is what they enclose |
| Settings.BoolMeans | src/config.rs:129-136 | true, yes, on and 1 mean on, false, no, off and 0 mean off, in any case, and nothing else does |
| Settings.LockingMeans | src/db.rs:308-315 | auto, exclusive and normal in any case, white space aside, and nothing else |
| Settings.TildeMeans | src/config.rs:78-89 | ~ alone and ~/ in front mean the home directory if there is one, and no other path does |
| Settings.LastLineCounts | src/config.rs:202-236 | lines are read in their order, so the later of two settings of a key counts |
| Settings.FirstErrorWins | src/config.rs:202-236 | the first line that is wrong is the answer for the section |
| Settings.SectionComplete | src/config.rs:237-249 | a section whose lines are all right is a vault of its name with the values set if and only if it sets a file and a mountpoint; the file is missed first |
| Settings.RenderIs | src/config.rs:337-367 | a vault is written as its settings, those that are set, each on a line of its own in one order |
| Editing.TextKeepsVaults | src/config.rs:281-299 | printing and parsing changes no vault and not their order |
| Editing.UpsertedGet | src/config.rs:252-272 | after upsert, get reads the lines rendered for the vault |
| Editing.UpsertedOther | src/config.rs:252-272 | after upsert every other alias yields what it did |
| Editing.UpsertedNames | src/config.rs:252-272 | upsert keeps every place and puts a new vault last |
| Editing.UpsertSurvivesIff | src/config.rs:252-299 | upsert, print, parse and get returns the same vault if and only if its values are trimmed, not empty, on one line and not in quotes, and its paths do not ask for the home directory; for all registries |
| Editing.AllAt | src/config.rs:186-188 | there is a list of vaults if and only if every section is one, and then it is theirs in order |
| Editing.FirstWrong | src/config.rs:186-188 | else the answer is the error of the first section that is none |
| Editing.TextKeepsAll | src/config.rs:281-299 | printing and parsing changes neither the list of vaults nor its first error |
| Editing.UpsertListed | src/config.rs:252-299 | through the file, storing a vault in a registry whose sections are all right changes its list in one place, or adds the vault at the end |
| Editing.QuotedIsLost | src/config.rs:252-299 | a vault whose file is in quotes does not come back |
| Editing.UpsertDisturbsNoOther | src/config.rs:252-299 | through the file, upsert leaves what every other alias yields, and the order, as they were |
| Editing.RemovedGet | src/config.rs:274-279 | remove takes away one vault and leaves what every other alias yields |
| Editing.RemoveDisturbsNoOther | src/config.rs:274-299 | the same through the file |
| Editing.UpsertKeepsLines | src/config.rs:252-272 | upsert leaves every line where it is, remarks included, but for those of the section it replaces; the blank lines it keeps or adds are exact |
| Editing.RemoveKeepsLines | src/config.rs:274-279 | remove takes one section away and leaves all others, line by line, and what is before them |
| Editing.TextKeepsLines | src/config.rs:281-299 | printing and parsing keeps every line in its place, but for empty ones at the end and one carriage return at the end of a line |
| ConfigFile.Config.Parse | src/config.rs:162-184 | the loop over the lines computes the registry, or stops at the first error with its line number |
| ConfigFile.Config.TakeLine | src/config.rs:166-181 | one line: a new section, one of three errors, or a line for the section or the preamble |
| ConfigFile.Config.ToText | src/config.rs:281-299 | the loops print the registry |
| ConfigFile.Config.PopAll | src/config.rs:294-297 | the loop drops newlines as long as two are at the end |
| ConfigFile.Config.Upsert | src/config.rs:252-272 | edits the sections in place to the upserted registry and says whether it replaced one |
| ConfigFile.Config.Remove | src/config.rs:274-279 | keeps the other sections and says whether there was one to remove |
| ConfigFile.Config.Find | src/config.rs:190-192 | what `get` answers for an alias |
| ConfigFile.Config.List | src/config.rs:186-188 | the loop collects the vaults in order, or stops at the first section that is wrong |
| ConfigFile.Config.ReadSection | src/config.rs:194-250 | the loop over the lines reads a vault or stops at the first line that is wrong |
| ConfigFile.Config.RenderLines | src/config.rs:337-367 | the pushes write the settings of a vault in order, those that are set |
| ConfigFile.Config.Push | src/config.rs:342-365 | one optional setting is one line or none |

## Left out

- Timestamps, `statfs`, `readlink`, `getattr`, `open` and the calls that only touch the idle clock: one branch each, no state that matters here.
- Disk errors and failing statements (EIO paths, `unwrap_or_default` in `read`): every statement succeeds, except where the number range is used up.
- `read_only` and the EROFS answers, and mounts without the attribute table (`has_xattrs` false): settled by the first branch of each call.
- Names that are not UTF-8 (EINVAL): names are byte strings, compared byte by byte as SQLite compares them.
- Integer widths of owner and group: `uid` and `gid` are natural numbers; the mode column is 16 bits wide, which holds every mode the code stores.
- The AUTOINCREMENT algorithm reads only the mark: SQLite takes the greater of the mark and the highest row, and the invariant makes them agree.
- Filesystem.CofferFS.Readdir: what an entry takes of the reply buffer is a parameter, as the layout is fuser's; nothing about paging depends on it.
- Filesystem.CofferFS.Read: takes the stored size to be at most 2^63-1, which the invariant says of every reachable state.
- Refinement.CallRefines: the bytes of a symlink are its target column, it has no blocks, and its flat content is that many zeros, which no call reads.
- SQLite, SQLCipher and OpenSSL: a transaction is a snapshot and a restore, the WAL and crash recovery are not modelled.
- Migration.Container.Open: a file that is no container answers like a wrong password and is not told apart from one; the migration as one transaction that a crash undoes is SQLite's doing.
- The order of rows with equal keys in the migration's copy: rows are copied in any order, which is all the result depends on.
- Mountinfo.UnescapeMountinfo: works on bytes and in 8-bit arithmetic that wraps; `from_utf8_lossy` after it and the overflow check of debug builds are left out.
- MountProtocol.ReopenSucceeds: exclusive locking may fail for reasons of SQLite's; the model then lets the mount go on with normal locking at any time, and does not say when.
- MountProtocol.StepKeepsInv: a reader (`info`, `check`, `backup`) opens and closes in one step; a `passwd` changes the key, and a compaction compacts, in one step each; a wrong password ends a process, and a mount keeps its password until it serves.
- MountProtocol.AlwaysSafeIff: what is written through a connection is not part of the protocol's state, only which process may write and with which key.
- The refusal to mount a version 1 container read-only, and the control socket of `src/ipc.rs` with the backup loop: no lock or key depends on them.
- Password sources, key derivation, mountpoint checks, the idle-unmount thread, logging and everything printed.
- The text of config errors: an error is its kind and line. `Config::load_from` with its default header and `save` through a temporary file are left out.
- Editing.UpsertSurvivesIff: takes `$HOME`, where it is set, to be an absolute path on one line; paths are compared as strings, not by their components.
- `expand_tilde` joins with one slash after the home directory, whether or not that ends in one.
- Vaults.ReadRendered: paths that are not UTF-8, which `display` would change, are left out.
- `parse_size`, `parse_duration`, `src/progress.rs`, `src/completions.rs`, tables and prompts: only easy members.
