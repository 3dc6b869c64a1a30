/**
 The processes of one container: mounts, `passwd` and `compact`, any number of
 them, interleaved step by step, each free to die at any point. Four things are
 shared: the flock, which belongs to an open file and is inherited by a fork;
 SQLite's fcntl locks, which belong to a process and are not; the -shm file, which
 whoever opens the container starts afresh when it sees no fcntl lock of another;
 and the key the container is encrypted with. A mount that returns gives up the
 flock before its process ends, and its watcher threads with it.
 */
module MountProtocol {
  import opened Common

  type Pid = nat
  type Key = nat
  type OpenFile = nat

  datatype Command =
    | Mount(foreground: bool, exclusive: bool, readonly: bool, compactOnIdle: bool)
    | Passwd(newKey: Key)
    | Compact

  datatype Stage =
    | Started        // has not opened the lock file yet
    | LockOpened     // the lock file is open, not locked
    | Locked         // past lock_exclusive
    | Opened         // has opened the container with the password it was given
    | Parent         // has forked; all it will still do is _exit
    | Forked1        // the child of the first fork of `daemonize`
    | Forked2        // the child of the second: the daemon
    | Reopening      // has closed the connection from before the fork
    | Serving        // session.run()
    | Returned       // a mount that has left cmd_mount, and with it the lock; its watcher threads still run
    | Finished       // passwd has re-keyed, compact has compacted

  /** A connection: the key it uses, the process that opened it and so took its fcntl locks, and which
      incarnation of the -shm file it has mapped; one in SQLite's exclusive mode maps none. */
  datatype Connection = Connection(key: Key, opener: Pid, shm: Option<nat>)

  datatype Process = Process(cmd: Command, stage: Stage, password: Key, lockFile: Option<OpenFile>, con: Option<Connection>)

  /** `holder` is the open file that has the flock, `fcntl` the processes that hold SQLite's locks,
      `shm` the current incarnation of the -shm file. */
  datatype State = State(procs: map<Pid, Process>, holder: Option<OpenFile>, files: nat, fcntl: set<Pid>, shm: nat, key: Key)

  /** Past `lock_exclusive`, and still holding what it returned. */
  predicate PastLock(p: Process) {
    !p.stage.Started? && !p.stage.LockOpened? && !p.stage.Returned?
  }

  /** Past the lock, and not just a parent on its way out. */
  predicate Active(p: Process) {
    PastLock(p) && !p.stage.Parent?
  }

  /** A read-only mount never locks exclusively, whatever was asked for. */
  predicate WantsExclusive(cmd: Command) {
    cmd.Mount? && cmd.exclusive && !cmd.readonly
  }

  /** Whether a mount has a thread that compacts it. */
  predicate Compacts(cmd: Command) {
    cmd.Mount? && cmd.compactOnIdle && !cmd.readonly
  }

  predicate Exclusive(p: Process) {
    p.con.Some? && p.con.value.shm.None?
  }

  /** An exclusive connection keeps its locks until it is closed, and everyone else out. */
  predicate HeldExclusively(procs: map<Pid, Process>) {
    exists pid :: pid in procs && Exclusive(procs[pid])
  }

  // --- steps ---------------------------------------------------------------------

  datatype Step =
    | Start(pid: Pid, cmd: Command, password: Key)
    | OpenLockFile(pid: Pid)
    | TryLock(pid: Pid)                 // flock(LOCK_EX | LOCK_NB)
    | OpenDb(pid: Pid)                  // may migrate, that is, write
    | Fork(pid: Pid, child: Pid)
    | CloseOld(pid: Pid)
    | Reopen(pid: Pid, exclusive: bool) // not exclusive also where exclusive locking failed
    | ServeDirectly(pid: Pid)           // a foreground mount with normal locking
    | Write(pid: Pid)                   // a FUSE call
    | IdleCompaction(pid: Pid)          // by a watcher thread
    | Return(pid: Pid)                  // session.run() is over, and so is cmd_mount
    | Rekey(pid: Pid)
    | Vacuum(pid: Pid)
    | Exit(pid: Pid)                    // the end, an error, a crash or a kill
    | Inspect                           // info, check or backup come and go, without the flock

  /** What the code of `cmd_mount`, `daemonize`, `cmd_passwd` and `cmd_compact` lets a process do next. */
  predicate Enabled(s: State, step: Step) {
    if step.Inspect? then true
    else if step.Start? then step.pid !in s.procs
    else
      && step.pid in s.procs
      && var p := s.procs[step.pid];
      match step
      case OpenLockFile(_) => p.stage.Started? && !(p.cmd.Mount? && p.cmd.readonly && p.cmd.compactOnIdle)
      case TryLock(_) => p.stage.LockOpened?
      case OpenDb(_) => p.stage.Locked?
      case Fork(_, child) =>
        child !in s.procs && p.cmd.Mount? && ((p.stage.Opened? && !p.cmd.foreground) || p.stage.Forked1?)
      case CloseOld(_) => p.stage.Forked2? || (p.stage.Opened? && WantsExclusive(p.cmd) && p.cmd.foreground)
      case Reopen(_, exclusive) => p.stage.Reopening? && (exclusive ==> WantsExclusive(p.cmd))
      case ServeDirectly(_) => p.stage.Opened? && p.cmd.Mount? && p.cmd.foreground && !WantsExclusive(p.cmd)
      case Write(_) => p.stage.Serving? && p.cmd.Mount? && !p.cmd.readonly
      case IdleCompaction(_) => (p.stage.Serving? || p.stage.Returned?) && Compacts(p.cmd) && p.con.Some?
      case Return(_) => p.stage.Serving? && p.con.Some?
      case Rekey(_) => p.stage.Opened? && p.cmd.Passwd? && p.con.Some?
      case Vacuum(_) => p.stage.Opened? && p.cmd.Compact?
      case Exit(_) => true
  }

  predicate Referenced(procs: map<Pid, Process>, f: OpenFile) {
    exists pid :: pid in procs && procs[pid].lockFile == Some(f)
  }

  /** A process ends: its fcntl locks go with it, the flock only with the last reference to its file. */
  function Exited(s: State, pid: Pid): State {
    var procs := s.procs - {pid};
    s.(procs := procs, fcntl := s.fcntl - {pid},
       holder := if s.holder.Some? && Referenced(procs, s.holder.value) then s.holder else None)
  }

  function Put(s: State, pid: Pid, p: Process): State {
    s.(procs := s.procs[pid := p])
  }

  /** The incarnation of -shm that a newly opened connection maps: a new one if it takes itself for the only user. */
  function Attached(s: State): nat {
    if s.fcntl == {} then s.shm + 1 else s.shm
  }

  /** Opening the container succeeds exactly with the current key, and while nobody holds it exclusively. */
  function OpenedDb(s: State, pid: Pid, next: Stage, exclusive: bool): State
    requires pid in s.procs
  {
    var p := s.procs[pid];
    var shm := if exclusive then s.shm else Attached(s);
    if p.password != s.key || HeldExclusively(s.procs) then Exited(s, pid)
    else
      Put(s, pid, p.(stage := next, con := Some(Connection(p.password, pid, if exclusive then None else Some(shm)))))
      .(fcntl := s.fcntl + {pid}, shm := shm)
  }

  /** `cmd_mount` drops the lock last, after the session; a watcher thread, or the one that serves
      backups of an exclusive mount, keeps the connection until the process ends. */
  function ReturnedMount(s: State, pid: Pid): State
    requires pid in s.procs
  {
    var p := s.procs[pid];
    var kept := Compacts(p.cmd) || Exclusive(p);
    var procs := s.procs[pid := p.(stage := Returned, lockFile := None, con := if kept then p.con else None)];
    s.(procs := procs, fcntl := if kept then s.fcntl else s.fcntl - {pid},
       holder := if s.holder.Some? && Referenced(procs, s.holder.value) then s.holder else None)
  }

  function Next(s: State, step: Step): State
    requires Enabled(s, step)
  {
    match step
    case Start(pid, cmd, password) => Put(s, pid, Process(cmd, Started, password, None, None))
    case OpenLockFile(pid) =>
      Put(s, pid, s.procs[pid].(stage := LockOpened, lockFile := Some(s.files))).(files := s.files + 1)
    case TryLock(pid) =>
      if s.holder.None? then Put(s, pid, s.procs[pid].(stage := Locked)).(holder := s.procs[pid].lockFile)
      else Exited(s, pid)
    case OpenDb(pid) => OpenedDb(s, pid, Opened, false)
    case Fork(pid, child) =>
      var p := s.procs[pid];
      Put(Put(s, pid, p.(stage := Parent)), child, p.(stage := if p.stage.Opened? then Forked1 else Forked2))
    case CloseOld(pid) => Put(s, pid, s.procs[pid].(stage := Reopening, con := None)).(fcntl := s.fcntl - {pid})
    case Reopen(pid, exclusive) => OpenedDb(s, pid, Serving, exclusive)
    case ServeDirectly(pid) => Put(s, pid, s.procs[pid].(stage := Serving))
    case Write(_) => s
    case IdleCompaction(_) => s
    case Return(pid) => ReturnedMount(s, pid)
    case Rekey(pid) =>
      var p := s.procs[pid];
      Put(s, pid, p.(stage := Finished, con := Some(p.con.value.(key := p.cmd.newKey)))).(key := p.cmd.newKey)
    case Vacuum(pid) => Put(s, pid, s.procs[pid].(stage := Finished, con := None)).(fcntl := s.fcntl - {pid})
    case Exit(pid) => Exited(s, pid)
    case Inspect => s.(shm := Attached(s))
  }

  // --- the invariant ---------------------------------------------------------------

  /** The lock file of one process: past the lock it is the one that has the flock, before it is not. */
  predicate FileOk(p: Process, holder: Option<OpenFile>, files: nat) {
    && (p.stage.Started? || p.stage.Returned? <==> p.lockFile.None?)
    && (p.lockFile.Some? ==> p.lockFile.value < files)
    && (if PastLock(p) then holder == p.lockFile else holder.None? || holder != p.lockFile)
  }

  /** What one process has open, at each stage. */
  predicate ConOk(pid: Pid, p: Process, fcntl: set<Pid>, shm: nat, key: Key) {
    && (p.con.Some? ==> p.stage.Returned? || (PastLock(p) && p.con.value.key == key))
    && (p.stage.Opened? || p.stage.Serving? ==> p.con.Some?)
    && (p.con.Some? && (p.stage.Opened? || p.stage.Serving? || p.stage.Returned?) ==>
          p.con.value.opener == pid && pid in fcntl && (p.con.value.shm.None? || p.con.value.shm == Some(shm)))
    && (Exclusive(p) ==> p.stage.Serving? || p.stage.Returned?)
    && (p.stage.Parent? || p.stage.Forked1? || p.stage.Forked2? || p.stage.Reopening? ==> p.cmd.Mount?)
    && (p.stage.Serving? || p.stage.Returned? ==> p.cmd.Mount?)
    && (p.cmd.Mount? && PastLock(p) && !p.stage.Locked? ==> p.password == key)
  }

  ghost predicate FilesInv(s: State) {
    && (forall pid <- s.procs :: FileOk(s.procs[pid], s.holder, s.files))
    && (s.holder.Some? ==> Referenced(s.procs, s.holder.value))
  }

  /** A lock file that is not locked yet belongs to one process. */
  ghost predicate OwnFileInv(s: State) {
    forall p, q :: p in s.procs && q in s.procs && p != q && s.procs[p].stage.LockOpened? ==>
      s.procs[p].lockFile != s.procs[q].lockFile
  }

  /** Of the processes past the lock at most one is active, and only a mount has company, its parents. */
  ghost predicate AloneInv(s: State) {
    forall p, q :: p in s.procs && q in s.procs && p != q && PastLock(s.procs[p]) && PastLock(s.procs[q]) ==>
      s.procs[p].cmd.Mount? && !(Active(s.procs[p]) && Active(s.procs[q]))
  }

  /** Has opened the container under the lock, and is not just a parent on its way out. */
  predicate InUse(p: Process) {
    Active(p) && !p.stage.Locked?
  }

  /** While a connection is exclusive nobody else gets past opening the container. */
  ghost predicate ExclusiveInv(s: State) {
    forall p, q :: p in s.procs && q in s.procs && p != q && Exclusive(s.procs[p]) ==> !InUse(s.procs[q])
  }

  ghost predicate ConsInv(s: State) {
    && (forall pid <- s.procs :: ConOk(pid, s.procs[pid], s.fcntl, s.shm, s.key))
    && s.fcntl <= s.procs.Keys
  }

  ghost predicate Inv(s: State) {
    FilesInv(s) && OwnFileInv(s) && AloneInv(s) && ExclusiveInv(s) && ConsInv(s)
  }

  function Initial(key: Key): State {
    State(map[], None, 0, {}, 0, key)
  }

  // --- every step keeps it ------------------------------------------------------------

  lemma {:induction false} ExitKeepsInv(s: State, pid: Pid)
    requires Inv(s)
    ensures Inv(Exited(s, pid))
  {
    var after := Exited(s, pid);
    forall p <- after.procs | PastLock(after.procs[p]) ensures after.holder == after.procs[p].lockFile {
      assert Referenced(after.procs, s.holder.value);
    }
  }

  lemma {:induction false} ReturnFiles(s: State, pid: Pid)
    requires FilesInv(s) && pid in s.procs
    ensures FilesInv(ReturnedMount(s, pid))
  {
    var after := ReturnedMount(s, pid);
    forall p <- after.procs | PastLock(after.procs[p]) ensures after.holder == after.procs[p].lockFile {
      assert FileOk(s.procs[p], s.holder, s.files);
      assert Referenced(after.procs, s.holder.value);
    }
    forall p <- after.procs ensures p == pid || after.procs[p] == s.procs[p] {}
  }

  lemma {:induction false} ReturnCons(s: State, pid: Pid)
    requires ConsInv(s) && Enabled(s, Return(pid))
    ensures ConsInv(ReturnedMount(s, pid))
  {
    hide Referenced;
    var after := ReturnedMount(s, pid);
    forall p <- after.procs ensures ConOk(p, after.procs[p], after.fcntl, after.shm, after.key) {
      assert ConOk(p, s.procs[p], s.fcntl, s.shm, s.key);
    }
  }

  lemma {:induction false} ReturnKeepsInv(s: State, pid: Pid)
    requires Inv(s) && Enabled(s, Return(pid))
    ensures Inv(ReturnedMount(s, pid))
  {
    ReturnFiles(s, pid);
    ReturnCons(s, pid);
    hide Referenced, FilesInv, ConsInv;
  }

  /** Replacing a process by one with the same lock file, or adding one, loses no reference. */
  lemma {:induction false} ReferencedPut(procs: map<Pid, Process>, pid: Pid, p: Process, f: OpenFile)
    requires pid !in procs || procs[pid].lockFile == p.lockFile
    requires Referenced(procs, f)
    ensures Referenced(procs[pid := p], f)
  {
    var q :| q in procs && procs[q].lockFile == Some(f);
    assert q in procs[pid := p] && procs[pid := p][q].lockFile == Some(f);
  }

  /** A process past the lock moves on: nobody else is affected, unless it changes the key, which nobody
      else uses then, or starts -shm afresh, which nobody else has mapped then. */
  lemma {:induction false} MoveOn(s: State, pid: Pid, p: Process, fcntl: set<Pid>, shm: nat, key: Key)
    requires Inv(s) && pid in s.procs && PastLock(s.procs[pid]) && PastLock(p)
    requires p.lockFile == s.procs[pid].lockFile && p.cmd == s.procs[pid].cmd && (Active(p) ==> Active(s.procs[pid]))
    requires s.fcntl - {pid} <= fcntl <= s.procs.Keys && ConOk(pid, p, fcntl, shm, key)
    requires shm == s.shm || s.fcntl == {}
    requires key == s.key || (!p.cmd.Mount? && Active(p))
    requires Exclusive(p) ==> Active(s.procs[pid])
    requires InUse(p) ==> InUse(s.procs[pid]) || !HeldExclusively(s.procs)
    ensures Inv(Put(s, pid, p).(fcntl := fcntl, shm := shm, key := key))
  {
    var after := Put(s, pid, p).(fcntl := fcntl, shm := shm, key := key);
    ReferencedPut(s.procs, pid, p, s.holder.value);
    hide Referenced;
    assert FilesInv(after) && OwnFileInv(after) && AloneInv(after);
    assert ExclusiveInv(after);
    forall q <- s.procs | q != pid ensures ConOk(q, s.procs[q], fcntl, shm, key) {
      assert ConOk(q, s.procs[q], s.fcntl, s.shm, s.key);
      if key != s.key { assert !PastLock(s.procs[q]); }
    }
  }

  lemma {:induction false} OpenKeepsInv(s: State, pid: Pid, next: Stage, exclusive: bool)
    requires Inv(s) && pid in s.procs
    requires (s.procs[pid].stage.Locked? && next.Opened? && !exclusive) || (s.procs[pid].stage.Reopening? && next.Serving?)
    ensures Inv(OpenedDb(s, pid, next, exclusive))
  {
    var p := s.procs[pid];
    if p.password != s.key || HeldExclusively(s.procs) {
      ExitKeepsInv(s, pid);
    } else {
      var shm := if exclusive then s.shm else Attached(s);
      var con := Connection(p.password, pid, if exclusive then None else Some(shm));
      assert ConOk(pid, p, s.fcntl, s.shm, s.key);
      MoveOn(s, pid, p.(stage := next, con := Some(con)), s.fcntl + {pid}, shm, s.key);
    }
    hide Inv;
  }

  /** The child of a fork joins a parent that will do nothing more. */
  lemma {:induction false} ChildJoins(s: State, pid: Pid, child: Pid, p: Process)
    requires Inv(s) && pid in s.procs && child !in s.procs && s.procs[pid].stage.Parent?
    requires p.lockFile == s.procs[pid].lockFile && p.cmd == s.procs[pid].cmd && p.cmd.Mount?
    requires p.con == s.procs[pid].con && p.password == s.procs[pid].password
    requires p.stage.Forked1? || p.stage.Forked2?
    requires forall q <- s.procs :: !Active(s.procs[q])
    requires !HeldExclusively(s.procs)
    ensures Inv(Put(s, child, p))
  {
    ReferencedPut(s.procs, child, p, s.holder.value);
    hide Referenced;
    assert ConOk(child, p, s.fcntl, s.shm, s.key) by { assert ConOk(pid, s.procs[pid], s.fcntl, s.shm, s.key); }
    forall q <- s.procs | PastLock(s.procs[q]) ensures s.procs[q].cmd.Mount? {
      assert q == pid || (PastLock(s.procs[pid]) && AloneInv(s));
    }
  }

  lemma {:induction false} ForkKeepsInv(s: State, pid: Pid, child: Pid)
    requires Inv(s) && Enabled(s, Fork(pid, child))
    ensures Inv(Next(s, Fork(pid, child)))
  {
    var p := s.procs[pid];
    assert ConOk(pid, p, s.fcntl, s.shm, s.key);
    MoveOn(s, pid, p.(stage := Parent), s.fcntl, s.shm, s.key);
    var mid := Put(s, pid, p.(stage := Parent));
    assert mid == mid.(fcntl := s.fcntl, shm := s.shm, key := s.key);
    forall q <- mid.procs ensures !Active(mid.procs[q]) {
      assert q != pid ==> !Active(s.procs[q]);
    }
    hide Inv;
    ChildJoins(mid, pid, child, p.(stage := if p.stage.Opened? then Forked1 else Forked2));
  }

  /** What a process is that starts, or opens the lock file: a file nobody else has. */
  ghost predicate Newcomer(s: State, pid: Pid, p: Process, files: nat) {
    && (pid in s.procs ==> s.procs[pid].stage.Started?) && p.con.None?
    && if p.stage.Started? then p.lockFile.None? && files == s.files
       else p.stage.LockOpened? && p.lockFile == Some(s.files) && files == s.files + 1
  }

  lemma {:induction false} NewcomerFiles(s: State, pid: Pid, p: Process, files: nat)
    requires FilesInv(s) && OwnFileInv(s) && Newcomer(s, pid, p, files)
    ensures FilesInv(Put(s, pid, p).(files := files)) && OwnFileInv(Put(s, pid, p).(files := files))
  {
    var after := Put(s, pid, p).(files := files);
    if s.holder.Some? {
      var q :| q in s.procs && s.procs[q].lockFile == s.holder;
      assert FileOk(s.procs[q], s.holder, s.files);
      assert q in after.procs && after.procs[q].lockFile == s.holder;
    }
    hide Referenced;
    forall q <- s.procs | q != pid ensures FileOk(s.procs[q], s.holder, files) && s.procs[q].lockFile != Some(s.files) {
      assert FileOk(s.procs[q], s.holder, s.files);
    }
  }

  lemma {:induction false} NewcomerKeepsInv(s: State, pid: Pid, p: Process, files: nat)
    requires Inv(s) && Newcomer(s, pid, p, files)
    ensures Inv(Put(s, pid, p).(files := files))
  {
    NewcomerFiles(s, pid, p, files);
    hide FilesInv, OwnFileInv;
  }

  lemma {:induction false} StartKeepsInv(s: State, step: Step)
    requires Inv(s) && Enabled(s, step) && (step.Start? || step.OpenLockFile?)
    ensures Inv(Next(s, step))
  {
    if step.OpenLockFile? { assert ConOk(step.pid, s.procs[step.pid], s.fcntl, s.shm, s.key); }
    NewcomerKeepsInv(s, step.pid, Next(s, step).procs[step.pid], Next(s, step).files);
    hide Inv;
  }

  lemma {:induction false} TryLockKeepsInv(s: State, pid: Pid)
    requires Inv(s) && Enabled(s, TryLock(pid))
    ensures Inv(Next(s, TryLock(pid)))
  {
    if s.holder.Some? {
      ExitKeepsInv(s, pid);
    } else {
      var after := Next(s, TryLock(pid));
      assert pid in after.procs && after.procs[pid].lockFile == after.holder;
      assert Referenced(after.procs, after.holder.value);
      hide Referenced;
      forall q <- s.procs | q != pid ensures !PastLock(s.procs[q]) && s.procs[q].lockFile != after.holder {
        assert FileOk(s.procs[q], s.holder, s.files);
      }
    }
  }

  lemma {:induction false} OwnStepsKeepInv(s: State, step: Step)
    requires Inv(s) && Enabled(s, step) && (step.CloseOld? || step.ServeDirectly? || step.Rekey? || step.Vacuum?)
    ensures Inv(Next(s, step))
  {
    var pid, after := step.pid, Next(s, step);
    assert ConOk(pid, s.procs[pid], s.fcntl, s.shm, s.key);
    MoveOn(s, pid, after.procs[pid], after.fcntl, after.shm, after.key);
    hide Inv;
  }

  /** A reader starts -shm afresh only when no process holds SQLite's locks, and so none has it mapped in use. */
  lemma {:induction false} InspectKeepsInv(s: State)
    requires Inv(s)
    ensures Inv(Next(s, Inspect))
  {
    forall q <- s.procs ensures ConOk(q, s.procs[q], s.fcntl, Attached(s), s.key) {
      assert ConOk(q, s.procs[q], s.fcntl, s.shm, s.key);
    }
    hide Referenced;
  }

  /** Every step of every process keeps the invariant. */
  lemma {:induction false} StepKeepsInv(s: State, step: Step)
    requires Inv(s) && Enabled(s, step)
    ensures Inv(Next(s, step))
  {
    hide Inv;
    match step
    case Start(_, _, _) => StartKeepsInv(s, step);
    case OpenLockFile(_) => StartKeepsInv(s, step);
    case TryLock(pid) => TryLockKeepsInv(s, pid);
    case OpenDb(pid) => OpenKeepsInv(s, pid, Opened, false);
    case Fork(pid, child) => ForkKeepsInv(s, pid, child);
    case Reopen(pid, exclusive) => OpenKeepsInv(s, pid, Serving, exclusive);
    case Write(_) =>
    case IdleCompaction(_) =>
    case Return(pid) => ReturnKeepsInv(s, pid);
    case Exit(pid) => ExitKeepsInv(s, pid);
    case Inspect => InspectKeepsInv(s);
    case _ => OwnStepsKeepInv(s, step);
  }

  // --- whole runs -----------------------------------------------------------------------

  ghost predicate Run(key: Key, s: seq<State>, steps: seq<Step>) {
    && |s| == |steps| + 1
    && s[0] == Initial(key)
    && forall i :: 0 <= i < |steps| ==> Enabled(s[i], steps[i]) && s[i + 1] == Next(s[i], steps[i])
  }

  lemma {:induction false} RunKeepsInv(key: Key, s: seq<State>, steps: seq<Step>, i: nat)
    requires Run(key, s, steps) && i < |s|
    ensures Inv(s[i])
  {
    if i == 0 {
    } else {
      RunKeepsInv(key, s, steps, i - 1);
      StepKeepsInv(s[i - 1], steps[i - 1]);
      assert s[i] == s[i - 1 + 1];
    }
  }

  /** Two processes that hold the lock and are not just parents on their way out are one and the same. */
  lemma {:induction false} MutualExclusion(key: Key, s: seq<State>, steps: seq<Step>, i: nat, p: Pid, q: Pid)
    requires Run(key, s, steps) && i < |s|
    requires p in s[i].procs && q in s[i].procs && Active(s[i].procs[p]) && Active(s[i].procs[q])
    ensures p == q
  {
    RunKeepsInv(key, s, steps, i);
  }

  lemma {:induction false} ReferencesOnlyFade(s: State, step: Step, f: OpenFile)
    requires Enabled(s, step) && f < s.files && Referenced(Next(s, step).procs, f)
    ensures Referenced(s.procs, f) && s.files <= Next(s, step).files
  {
    var after := Next(s, step);
    var p :| p in after.procs && after.procs[p].lockFile == Some(f);
    if step.Fork? && p == step.child {
      assert s.procs[step.pid].lockFile == Some(f);
    } else {
      assert p in s.procs && s.procs[p].lockFile == Some(f);
    }
  }

  lemma {:induction false} ReferencedSince(key: Key, s: seq<State>, steps: seq<Step>, i: nat, j: nat, k: nat, f: OpenFile)
    requires Run(key, s, steps) && i <= j <= k < |s|
    requires f < s[i].files && Referenced(s[k].procs, f)
    ensures Referenced(s[j].procs, f) && f < s[j].files
    decreases k - i
  {
    if i < j {
      FilesGrow(s[i], steps[i]);
      ReferencedSince(key, s, steps, i + 1, j, k, f);
    } else if j < k {
      FilesUpTo(key, s, steps, i, k - 1);
      ReferencesOnlyFade(s[k - 1], steps[k - 1], f);
      assert s[k] == s[k - 1 + 1];
      ReferencedSince(key, s, steps, i, j, k - 1, f);
    }
  }

  lemma {:induction false} FilesGrow(s: State, step: Step)
    requires Enabled(s, step)
    ensures s.files <= Next(s, step).files
  {
  }

  lemma {:induction false} FilesUpTo(key: Key, s: seq<State>, steps: seq<Step>, i: nat, k: nat)
    requires Run(key, s, steps) && i <= k < |s|
    ensures s[i].files <= s[k].files
    decreases k - i
  {
    if i == k {
    } else {
      FilesUpTo(key, s, steps, i, k - 1);
      FilesGrow(s[k - 1], steps[k - 1]);
      assert s[k] == s[k - 1 + 1];
    }
  }

  lemma {:induction false} HeldBetween(key: Key, s: seq<State>, steps: seq<Step>, i: nat, j: nat, k: nat, f: OpenFile)
    requires Run(key, s, steps) && i <= j <= k < |s|
    requires s[i].holder == Some(f) && f < s[i].files && Referenced(s[k].procs, f)
    ensures s[j].holder == Some(f)
    decreases j - i
  {
    if i == j {
    } else {
      HeldBetween(key, s, steps, i, j - 1, k, f);
      ReferencedSince(key, s, steps, i, j, k, f);
      assert Enabled(s[j - 1], steps[j - 1]) && s[j - 1 + 1] == Next(s[j - 1], steps[j - 1]);
      hide Enabled, Next, Referenced;
      HolderStays(s[j - 1], steps[j - 1], f);
    }
  }

  /** From the moment a mount has the lock until the last process that inherited it ends or returns from
      `cmd_mount`, forks and dying parents included, the lock is held without a gap and by the same open file. */
  lemma {:induction false} LockHeldThroughout(key: Key, s: seq<State>, steps: seq<Step>, i: nat, j: nat, k: nat,
                                              first: Pid, last: Pid)
    requires Run(key, s, steps) && i <= j <= k < |s|
    requires first in s[i].procs && PastLock(s[i].procs[first])
    requires last in s[k].procs && s[k].procs[last].lockFile == s[i].procs[first].lockFile
    ensures s[j].holder.Some? && s[j].holder == s[i].procs[first].lockFile
  {
    RunKeepsInv(key, s, steps, i);
    assert FileOk(s[i].procs[first], s[i].holder, s[i].files);
    assert Referenced(s[k].procs, s[i].holder.value);
    hide Run, Inv, Referenced;
    HeldBetween(key, s, steps, i, j, k, s[i].holder.value);
  }

  lemma {:induction false} HolderStays(s: State, step: Step, f: OpenFile)
    requires Enabled(s, step) && s.holder == Some(f) && Referenced(Next(s, step).procs, f)
    ensures Next(s, step).holder == Some(f)
  {
    hide Referenced;
  }

  /** Every connection, whoever has it and whatever it is used for, is keyed with the container's current key,
      but perhaps one of a mount that has returned. */
  lemma {:induction false} ConnectionsCurrent(key: Key, s: seq<State>, steps: seq<Step>, i: nat, p: Pid)
    requires Run(key, s, steps) && i < |s| && p in s[i].procs && s[i].procs[p].con.Some?
    ensures s[i].procs[p].con.value.key == s[i].key || s[i].procs[p].stage.Returned?
  {
    hide Inv, Run;
    RunKeepsInv(key, s, steps, i);
    ConOf(s[i], p);
  }

  /** A mount serves through a connection that it opened itself, so after the last fork, whose fcntl locks it
      still holds, and whose -shm, if it maps one, no reader has started afresh. */
  lemma {:induction false} ServesThroughOwnConnection(key: Key, s: seq<State>, steps: seq<Step>, i: nat, p: Pid)
    requires Run(key, s, steps) && i < |s| && p in s[i].procs && s[i].procs[p].stage.Serving?
    ensures s[i].procs[p].con.Some? && s[i].procs[p].con.value.opener == p && p in s[i].fcntl
    ensures Exclusive(s[i].procs[p]) || s[i].procs[p].con.value.shm == Some(s[i].shm)
  {
    hide Inv, Run;
    RunKeepsInv(key, s, steps, i);
    ConOf(s[i], p);
  }

  lemma {:induction false} ConOf(s: State, p: Pid)
    requires Inv(s) && p in s.procs
    ensures ConOk(p, s.procs[p], s.fcntl, s.shm, s.key)
  {
    hide ConOk;
  }

  /** The second opening, after the forks, never meets another key than the first did, nor anyone who keeps
      the container to himself. */
  lemma {:induction false} ReopenSucceeds(key: Key, s: seq<State>, steps: seq<Step>, i: nat, p: Pid, exclusive: bool)
    requires Run(key, s, steps) && i < |s| && p in s[i].procs && Enabled(s[i], Reopen(p, exclusive))
    ensures Next(s[i], Reopen(p, exclusive)).procs.Keys == s[i].procs.Keys
    ensures Next(s[i], Reopen(p, exclusive)).procs[p].stage.Serving?
  {
    RunKeepsInv(key, s, steps, i);
    assert ConOk(p, s[i].procs[p], s[i].fcntl, s[i].shm, s[i].key);
  }

  // --- who may write, and when ---------------------------------------------------------------

  /** Whether a process has a step before it that writes through the connection it has open. */
  predicate CanWrite(p: Process) {
    && p.con.Some?
    && ((p.stage.Opened? && !p.cmd.Mount?)
        || (p.stage.Serving? && p.cmd.Mount? && !p.cmd.readonly)
        || (p.stage.Returned? && Compacts(p.cmd)))
  }

  /** At most one process can write, and it does so with the current key. */
  ghost predicate WritesSafe(s: State) {
    && (forall p <- s.procs :: CanWrite(s.procs[p]) ==> s.procs[p].con.value.key == s.key)
    && (forall p, q :: p in s.procs && q in s.procs && CanWrite(s.procs[p]) && CanWrite(s.procs[q]) ==> p == q)
  }

  /** Some run ends in `t`, with mounts that compact on idle only if `compacting`. */
  ghost predicate Reachable(key: Key, compacting: bool, t: State) {
    exists s: seq<State>, steps: seq<Step> ::
      Run(key, s, steps) && (forall step <- steps :: Asks(step, compacting)) && s[|s| - 1] == t
  }

  predicate Asks(step: Step, compacting: bool) {
    step.Start? && step.cmd.Mount? && step.cmd.compactOnIdle ==> compacting
  }

  ghost predicate AlwaysSafe(compacting: bool) {
    forall key: Key, t: State :: Reachable(key, compacting, t) ==> WritesSafe(t)
  }

  ghost predicate NobodyCompacts(s: State) {
    forall p <- s.procs :: !Compacts(s.procs[p].cmd)
  }

  lemma {:induction false} StepCompacts(s: State, step: Step)
    requires Enabled(s, step) && Asks(step, false) && NobodyCompacts(s)
    ensures NobodyCompacts(Next(s, step))
  {
    hide Referenced, HeldExclusively;
  }

  lemma {:induction false} RunCompacts(key: Key, s: seq<State>, steps: seq<Step>, i: nat)
    requires Run(key, s, steps) && (forall step <- steps :: Asks(step, false)) && i < |s|
    ensures NobodyCompacts(s[i])
  {
    hide Asks, NobodyCompacts, Enabled, Next;
    if i == 0 {
      NobodyAtFirst(key);
    } else {
      RunCompacts(key, s, steps, i - 1);
      assert steps[i - 1] in steps && s[i] == s[i - 1 + 1];
      StepCompacts(s[i - 1], steps[i - 1]);
    }
  }

  lemma {:induction false} NobodyAtFirst(key: Key)
    ensures NobodyCompacts(Initial(key))
  {
  }

  lemma {:induction false} SafeWithoutCompaction(s: State)
    requires Inv(s) && NobodyCompacts(s)
    ensures WritesSafe(s)
  {
    hide Referenced, FilesInv, OwnFileInv, ExclusiveInv;
    forall p <- s.procs | CanWrite(s.procs[p]) ensures s.procs[p].con.value.key == s.key && Active(s.procs[p]) {
      assert ConOk(p, s.procs[p], s.fcntl, s.shm, s.key);
    }
  }

  lemma {:induction false} ReachableStep(key: Key, compacting: bool, t: State, step: Step)
    requires Reachable(key, compacting, t) && Enabled(t, step) && Asks(step, compacting)
    ensures Reachable(key, compacting, Next(t, step))
  {
    hide Enabled, Next, Asks;
    var s, steps :| Run(key, s, steps) && (forall step <- steps :: Asks(step, compacting)) && s[|s| - 1] == t;
    var s', steps' := s + [Next(t, step)], steps + [step];
    assert Run(key, s', steps') && s'[|s'| - 1] == Next(t, step);
  }

  lemma {:induction false} ReachableFirst(key: Key, compacting: bool)
    ensures Reachable(key, compacting, Initial(key))
  {
    var s: seq<State>, steps: seq<Step> := [Initial(key)], [];
    assert Run(key, s, steps);
  }

  /** A process that comes when the lock is free gets through to its connection. */
  lemma {:induction false} Comes(key: Key, compacting: bool, t: State, pid: Pid, cmd: Command) returns (after: State)
    requires Reachable(key, compacting, t) && pid !in t.procs && t.holder.None? && !HeldExclusively(t.procs)
    requires cmd.Mount? && cmd.compactOnIdle ==> compacting && !cmd.readonly
    ensures Reachable(key, compacting, after) && after.key == t.key
    ensures pid in after.procs && after.procs.Keys == t.procs.Keys + {pid}
    ensures forall q <- t.procs :: after.procs[q] == t.procs[q]
    ensures after.fcntl == t.fcntl + {pid} && after.procs[pid].cmd == cmd && after.procs[pid].stage.Opened?
    ensures after.procs[pid].con == Some(Connection(t.key, pid, Some(after.shm)))
    ensures after.procs[pid].password == t.key && after.procs[pid].lockFile.Some?
    ensures after.holder == after.procs[pid].lockFile
  {
    hide Reachable, Referenced;
    var s1 := Next(t, Start(pid, cmd, t.key));
    ReachableStep(key, compacting, t, Start(pid, cmd, t.key));
    var s2 := Next(s1, OpenLockFile(pid));
    ReachableStep(key, compacting, s1, OpenLockFile(pid));
    var s3 := Next(s2, TryLock(pid));
    ReachableStep(key, compacting, s2, TryLock(pid));
    assert forall q <- s3.procs :: q != pid ==> s3.procs[q] == t.procs[q];
    after := Next(s3, OpenDb(pid));
    ReachableStep(key, compacting, s3, OpenDb(pid));
  }

  lemma {:induction false} ReturnFrees(t: State, pid: Pid)
    requires t.procs.Keys == {pid} && !Exclusive(t.procs[pid])
    ensures ReturnedMount(t, pid).holder.None? && !HeldExclusively(ReturnedMount(t, pid).procs)
  {
  }

  /** A mount that compacts on idle has returned, so the lock is free, and a `passwd` has come: both can write. */
  lemma {:induction false} TwoWriters(key: Key, newKey: Key) returns (t: State)
    ensures Reachable(key, true, t) && t.key == key && 1 in t.procs && 2 in t.procs
    ensures t.procs[1].stage.Returned? && CanWrite(t.procs[1]) && t.procs[1].con.value.key == key
    ensures t.procs[2].stage.Opened? && t.procs[2].cmd == Passwd(newKey) && CanWrite(t.procs[2])
  {
    ReachableFirst(key, true);
    hide Reachable, Referenced;
    t := Comes(key, true, Initial(key), 1, Mount(true, false, false, true));
    ReachableStep(key, true, t, ServeDirectly(1));
    t := Next(t, ServeDirectly(1));
    ReachableStep(key, true, t, Return(1));
    ReturnFrees(t, 1);
    t := Next(t, Return(1));
    t := Comes(key, true, t, 2, Passwd(newKey));
  }

  /** And once it has changed the key, the compaction still to come has the old one. */
  lemma {:induction false} StaleWriter(key: Key, newKey: Key) returns (t: State)
    ensures Reachable(key, true, t) && t.key == newKey && 1 in t.procs
    ensures CanWrite(t.procs[1]) && t.procs[1].con.value.key == key && Enabled(t, IdleCompaction(1))
  {
    hide Reachable, Referenced;
    t := TwoWriters(key, newKey);
    ReachableStep(key, true, t, Rekey(2));
    t := Next(t, Rekey(2));
  }

  /** `cmd_mount` drops the lock when it returns, while its watcher threads run on until the process ends.
      One process at a time writes, with the current key, in all runs if and only if no mount compacts on idle. */
  lemma {:induction false} AlwaysSafeIff(compacting: bool)
    ensures AlwaysSafe(compacting) <==> !compacting
  {
    hide Inv, CanWrite;
    if compacting {
      var t := TwoWriters(0, 1);
      assert Reachable(0, compacting, t) && !WritesSafe(t);
    } else {
      forall key: Key, t: State | Reachable(key, compacting, t) ensures WritesSafe(t) {
        var s, steps :| Run(key, s, steps) && (forall step <- steps :: Asks(step, compacting)) && s[|s| - 1] == t;
        hide Run, Asks, WritesSafe, NobodyCompacts;
        RunKeepsInv(key, s, steps, |s| - 1);
        RunCompacts(key, s, steps, |s| - 1);
        SafeWithoutCompaction(t);
      }
    }
  }

  // --- why the connection is replaced --------------------------------------------------------

  /** One fork of `daemonize`: the parent leaves, and its fcntl locks with it. */
  lemma {:induction false} ForkAndLeave(key: Key, t: State, pid: Pid, child: Pid) returns (after: State)
    requires Reachable(key, false, t) && t.procs.Keys == {pid} && child != pid && Enabled(t, Fork(pid, child))
    requires t.fcntl <= {pid}
    ensures Reachable(key, false, after) && after.procs.Keys == {child} && after.fcntl == {} && after.shm == t.shm && after.key == t.key
    ensures after.procs[child] == t.procs[pid].(stage := if t.procs[pid].stage.Opened? then Forked1 else Forked2)
  {
    hide Reachable, Referenced;
    var forked := Next(t, Fork(pid, child));
    ReachableStep(key, false, t, Fork(pid, child));
    ReachableStep(key, false, forked, Exit(pid));
    after := Next(forked, Exit(pid));
  }

  /** The grandchild of a mount, its parents gone. */
  lemma {:induction false} Daemon(key: Key, cmd: Command) returns (t: State)
    requires cmd.Mount? && !cmd.foreground && !cmd.compactOnIdle
    ensures Reachable(key, false, t) && t.procs.Keys == {3} && t.fcntl == {} && t.key == key
    ensures t.procs[3].stage.Forked2? && t.procs[3].cmd == cmd && t.procs[3].password == key
    ensures t.procs[3].con == Some(Connection(key, 1, Some(t.shm)))
  {
    ReachableFirst(key, false);
    hide Reachable, Referenced;
    t := Comes(key, false, Initial(key), 1, cmd);
    t := ForkAndLeave(key, t, 1, 2);
    t := ForkAndLeave(key, t, 2, 3);
  }

  /** A daemon that kept the connection it inherited could find its -shm started afresh under it: the locks
      left with the parents, and the next reader takes itself for the only user. */
  lemma {:induction false} InheritedConnectionGoesStale(key: Key) returns (t: State)
    ensures Reachable(key, false, t) && 3 in t.procs && t.procs[3].stage.Forked2?
    ensures t.procs[3].con.Some? && t.procs[3].con.value.opener != 3
    ensures t.procs[3].con.value.shm.Some? && t.procs[3].con.value.shm != Some(t.shm)
  {
    hide Reachable, Referenced;
    t := Daemon(key, Mount(false, false, false, false));
    ReachableStep(key, false, t, Inspect);
    t := Next(t, Inspect);
  }

  /** A mount in the foreground serves through the connection it has, or through an exclusive one of its own. */
  lemma {:induction false} ForegroundServes(key: Key, exclusive: bool) returns (t: State)
    ensures Reachable(key, false, t) && 1 in t.procs && t.procs[1].stage.Serving?
    ensures Exclusive(t.procs[1]) <==> exclusive
  {
    ReachableFirst(key, false);
    hide Reachable, Referenced;
    t := Comes(key, false, Initial(key), 1, Mount(true, exclusive, false, false));
    if exclusive {
      ReachableStep(key, false, t, CloseOld(1));
      t := Next(t, CloseOld(1));
      ReachableStep(key, false, t, Reopen(1, true));
      assert !HeldExclusively(t.procs);
      t := Next(t, Reopen(1, true));
    } else {
      ReachableStep(key, false, t, ServeDirectly(1));
      t := Next(t, ServeDirectly(1));
    }
  }

  /** The daemon that replaces it gets to serve, in either locking mode. */
  lemma {:induction false} DaemonServes(key: Key, exclusive: bool) returns (t: State)
    ensures Reachable(key, false, t) && 3 in t.procs && t.procs[3].stage.Serving?
    ensures Exclusive(t.procs[3]) <==> exclusive
  {
    hide Reachable, Referenced;
    t := Daemon(key, Mount(false, exclusive, false, false));
    ReachableStep(key, false, t, CloseOld(3));
    t := Next(t, CloseOld(3));
    ReachableStep(key, false, t, Reopen(3, exclusive));
    assert !HeldExclusively(t.procs);
    t := Next(t, Reopen(3, exclusive));
  }
}
