/**
 Log.kt: the log file, its rotation, and the two locks, as steps of many threads in many
 processes.

 A state holds the two files, the locks, and where each thread stands. Every system call
 is one step, and any thread may take the next one. Appending a message is one atomic step
 and so is a rename, which replaces its target.
 */
module RotatingLog {
  import opened Outcomes

  const LOG_MAX_FILE_SIZE: nat := 1024 * 1024

  /** One formatted log line; size is its length in bytes. */
  datatype Message = Message(text: string, size: nat)

  datatype Thread = Thread(process: nat, id: nat)

  /** What a thread is about to do inside saveLogMsg. */
  datatype SaveStep =
    | Check1 | TryThread | Check2 | TryFile | Check3 | Rename | ReleaseFile | ReleaseThread | Append
    | Overlapped

  /** What a thread is about to do inside clearLogs or readLogs. */
  datatype BlockStep =
    | DeleteLog | DeleteRotated
    | CheckRotated | ReadRotated | CheckLog(before: seq<Message>) | ReadLog(before: seq<Message>)
    | Finished

  datatype Pc =
    | Idle
    | Saving(msg: Message, save: SaveStep)
    | LockThread(first: BlockStep)
    | LockFile(first: BlockStep)
    | InBlock(block: BlockStep)
    | UnlockThread
    | LockOverlapped

  datatype State = State(
    log: Option<seq<Message>>,
    rotated: Option<seq<Message>>,
    fileLock: Option<nat>,
    leaked: bool,
    threadLocks: map<nat, Thread>,
    pc: map<Thread, Pc>,
    // bookkeeping: everything ever appended, and which parts of it the files hold
    history: seq<Message>,
    rotFrom: nat,
    rotTo: nat,
    logFrom: nat,
    rotations: nat
  )

  const START := State(None, None, None, false, map[], map[], [], 0, 0, 0, 0)

  datatype Task = Save(msg: Message) | Clear | Read

  /** Whether the system call of a step, if it makes one that can fail, succeeds. */
  datatype Choice = Succeeds | Fails

  /** A thread starts a task or takes its next step, or a process is killed. */
  datatype Action = Begin(t: Thread, task: Task) | Run(t: Thread, c: Choice) | Kill(process: nat)

  function Size(ms: seq<Message>): nat {
    if ms == [] then 0 else Size(ms[..|ms| - 1]) + ms[|ms| - 1].size
  }

  /** File.length(), which is 0 for a missing file. */
  function Length(file: Option<seq<Message>>): nat {
    if file.Some? then Size(file.value) else 0
  }

  function At(s: State, t: Thread): Pc { if t in s.pc then s.pc[t] else Idle }

  function Goto(s: State, t: Thread, pc: Pc): State { s.(pc := s.pc[t := pc]) }

  function ReleaseThreadLock(s: State, t: Thread): State {
    s.(threadLocks := map p | p in s.threadLocks && p != t.process :: s.threadLocks[p])
  }

  predicate Free(s: State, t: Thread) {
    t.process !in s.threadLocks || s.threadLocks[t.process] == t
  }

  predicate TooLong(s: State) { Length(s.log) > LOG_MAX_FILE_SIZE }

  /** Releasing the file lock; when that fails the lock stays with the process. */
  function ReleaseFileLock(s: State, c: Choice): State {
    if c == Succeeds then s.(fileLock := None) else s.(leaked := true)
  }

  /** saveLogMsg: rotate behind the three checks and the two try-locks, then append. */
  function SaveNext(s: State, t: Thread, msg: Message, step: SaveStep, c: Choice): State {
    var to := (next: SaveStep) => Saving(msg, next);
    match step
    case Check1 => Goto(s, t, to(if TooLong(s) then TryThread else Append))
    case TryThread =>
      if Free(s, t) then Goto(s.(threadLocks := s.threadLocks[t.process := t]), t, to(Check2))
      else Goto(s, t, to(Append))
    case Check2 => Goto(s, t, to(if TooLong(s) then TryFile else ReleaseThread))
    case TryFile =>
      if s.fileLock == Some(t.process) then Goto(s, t, to(Overlapped))
      else if s.fileLock.Some? || c == Fails then Goto(s, t, to(ReleaseThread))
      else Goto(s.(fileLock := Some(t.process)), t, to(Check3))
    case Check3 => Goto(s, t, to(if TooLong(s) then Rename else ReleaseFile))
    case Rename =>
      if s.log.None? || c == Fails then Goto(s, t, to(ReleaseFile))
      else
        var n := |s.history|;
        Goto(s.(log := None, rotated := s.log, rotFrom := s.logFrom, rotTo := n, logFrom := n,
                rotations := s.rotations + 1),
             t, to(ReleaseFile))
    case ReleaseFile => Goto(ReleaseFileLock(s, c), t, to(ReleaseThread))
    case ReleaseThread => Goto(ReleaseThreadLock(s, t), t, to(Append))
    case Append =>
      if c == Fails then Goto(s, t, Idle)
      else
        var content := if s.log.Some? then s.log.value else [];
        Goto(s.(log := Some(content + [msg]), history := s.history + [msg]), t, Idle)
    case Overlapped => Goto(ReleaseThreadLock(s, t), t, Idle)
  }

  /** clearLogs and readLogs while both locks are held. */
  function BlockNext(s: State, t: Thread, step: BlockStep, c: Choice): State {
    var to := (next: BlockStep) => InBlock(next);
    match step
    case DeleteLog =>
      if c == Fails then Goto(s, t, to(DeleteRotated))
      else Goto(s.(log := None, logFrom := |s.history|), t, to(DeleteRotated))
    case DeleteRotated =>
      if c == Fails then Goto(s, t, to(Finished)) else Goto(s.(rotated := None), t, to(Finished))
    case CheckRotated => Goto(s, t, to(if s.rotated.Some? then ReadRotated else CheckLog([])))
    case ReadRotated =>
      if c == Fails || s.rotated.None? then Goto(s, t, to(Finished))
      else Goto(s, t, to(CheckLog(s.rotated.value)))
    case CheckLog(before) => Goto(s, t, to(if s.log.Some? then ReadLog(before) else Finished))
    case ReadLog(_) => Goto(s, t, to(Finished))
    case Finished => Goto(ReleaseFileLock(s, c), t, UnlockThread)
  }

  /** The next state, or nothing if the action cannot happen now. */
  function Next(s: State, a: Action): Option<State> {
    match a
    case Begin(t, task) =>
      if At(s, t) != Idle then None
      else
        Some(Goto(s, t, match task
          case Save(msg) => Saving(msg, Check1)
          case Clear => LockThread(DeleteLog)
          case Read => LockThread(CheckRotated)))
    case Run(t, c) =>
      (match At(s, t)
       case Idle => None
       case Saving(msg, step) => Some(SaveNext(s, t, msg, step, c))
       case LockThread(first) =>
         if Free(s, t) then Some(Goto(s.(threadLocks := s.threadLocks[t.process := t]), t, LockFile(first)))
         else None
       case LockFile(first) =>
         if s.fileLock == Some(t.process) then Some(Goto(s, t, LockOverlapped))
         else if c == Fails then Some(Goto(s, t, UnlockThread))
         else if s.fileLock.Some? then None
         else Some(Goto(s.(fileLock := Some(t.process)), t, InBlock(first)))
       case InBlock(step) => Some(BlockNext(s, t, step, c))
       case UnlockThread => Some(Goto(ReleaseThreadLock(s, t), t, Idle))
       case LockOverlapped => Some(Goto(ReleaseThreadLock(s, t), t, Idle)))
    case Kill(p) =>
      var freed := s.fileLock == Some(p);
      Some(s.(pc := map t | t in s.pc && t.process != p :: s.pc[t],
              threadLocks := map q | q in s.threadLocks && q != p :: s.threadLocks[q],
              fileLock := if freed then None else s.fileLock,
              leaked := !freed && s.leaked))
  }

  /** A complete read ends with this action and returns text. */
  ghost predicate Reads(s: State, a: Action, text: seq<Message>) {
    a.Run? &&
    match At(s, a.t)
    case InBlock(CheckLog(before)) => s.log.None? && text == before
    case InBlock(ReadLog(before)) => a.c == Succeeds && s.log.Some? && text == before + s.log.value
    case _ => false
  }

  // ---- The invariant ----

  predicate HoldsThreadLock(pc: Pc) {
    match pc
    case Idle => false
    case Saving(_, step) => !(step.Check1? || step.TryThread? || step.Append?)
    case LockThread(_) => false
    case _ => true
  }

  predicate HoldsFileLock(pc: Pc) {
    match pc
    case Saving(_, step) => step.Check3? || step.Rename? || step.ReleaseFile?
    case InBlock(_) => true
    case _ => false
  }

  ghost predicate LocksOk(s: State) {
    && (forall t :: HoldsThreadLock(At(s, t)) <==> t.process in s.threadLocks && s.threadLocks[t.process] == t)
    && (forall t :: HoldsFileLock(At(s, t)) ==> s.fileLock == Some(t.process) && !s.leaked)
    && (s.fileLock.Some? && !s.leaked ==>
          s.fileLock.value in s.threadLocks && HoldsFileLock(At(s, s.threadLocks[s.fileLock.value])))
    && (s.leaked ==> s.fileLock.Some?)
    && (forall p :: p in s.threadLocks ==> s.threadLocks[p].process == p)
  }

  /** Each file is a stretch of the history, the rotated one before the current one. */
  ghost predicate FilesOk(s: State) {
    && s.rotFrom <= s.rotTo <= s.logFrom <= |s.history|
    && (s.log.None? ==> s.logFrom == |s.history|)
    && (s.log.Some? ==> s.log.value == s.history[s.logFrom..])
    && (s.rotated.Some? ==> s.rotFrom < s.rotTo && s.rotated.value == s.history[s.rotFrom..s.rotTo])
    && s.rotations * (LOG_MAX_FILE_SIZE + 1) <= Size(s.history[..s.logFrom])
  }

  /** What a thread has seen while holding both locks is still true. */
  ghost predicate ViewOk(s: State, t: Thread) {
    match At(s, t)
    case Saving(_, Rename) => TooLong(s)
    case LockThread(first) => first.DeleteLog? || first.CheckRotated?
    case LockFile(first) => first.DeleteLog? || first.CheckRotated?
    case InBlock(ReadRotated) => s.rotated.Some?
    case InBlock(CheckLog(before)) => before == (if s.rotated.Some? then s.rotated.value else [])
    case InBlock(ReadLog(before)) =>
      s.log.Some? && before == (if s.rotated.Some? then s.rotated.value else [])
    case _ => true
  }

  ghost predicate Invariant(s: State) {
    LocksOk(s) && FilesOk(s) && forall t :: ViewOk(s, t)
  }
}
