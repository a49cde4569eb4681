/** What every interleaving of the logger's steps keeps. */
module RotatingLogSafety {
  import opened Outcomes
  import opened RotatingLog

  /** At most one thread, of any process, is between taking and releasing the file lock. */
  lemma MutualExclusion(s: State, t: Thread, u: Thread)
    requires LocksOk(s) && HoldsFileLock(At(s, t)) && HoldsFileLock(At(s, u))
    ensures t == u
  {
    assert HoldsThreadLock(At(s, t)) && HoldsThreadLock(At(s, u));
  }

  // ---- Locks ----

  /** Only t moves. */
  ghost predicate Moves(s: State, s': State, t: Thread) {
    s'.pc == s.pc[t := At(s', t)]
  }

  /** The ways in which one step of t can change the locks. */
  ghost predicate LockEffect(s: State, s': State, t: Thread) {
    var h, h', f, f' := HoldsThreadLock(At(s, t)), HoldsThreadLock(At(s', t)),
                        HoldsFileLock(At(s, t)), HoldsFileLock(At(s', t));
    var sameThread, sameFile := s'.threadLocks == s.threadLocks, s'.fileLock == s.fileLock && s'.leaked == s.leaked;
    || (h == h' && f == f' && sameThread && sameFile)
    || (!h && h' && !f && !f' && Free(s, t) && s'.threadLocks == s.threadLocks[t.process := t] && sameFile)
    || (h && !h' && !f && !f' && s'.threadLocks == ReleaseThreadLock(s, t).threadLocks && sameFile)
    || (h && h' && !f && f' && sameThread
        && s.fileLock == None && s'.fileLock == Some(t.process) && s'.leaked == s.leaked)
    || (h && h' && f && !f' && sameThread && s'.fileLock == None && s'.leaked == s.leaked)
    || (h && h' && f && !f' && sameThread && s'.fileLock == s.fileLock && s'.leaked)
  }

  lemma SaveEffect(s: State, t: Thread, msg: Message, step: SaveStep, c: Choice)
    requires At(s, t) == Saving(msg, step)
    ensures Moves(s, SaveNext(s, t, msg, step, c), t)
    ensures LockEffect(s, SaveNext(s, t, msg, step, c), t)
  {
  }

  lemma BlockEffect(s: State, t: Thread, step: BlockStep, c: Choice)
    requires At(s, t) == InBlock(step)
    ensures Moves(s, BlockNext(s, t, step, c), t)
    ensures LockEffect(s, BlockNext(s, t, step, c), t)
  {
  }

  lemma RunEffect(s: State, t: Thread, c: Choice)
    requires Next(s, Run(t, c)).Some?
    ensures Moves(s, Next(s, Run(t, c)).value, t)
    ensures LockEffect(s, Next(s, Run(t, c)).value, t)
  {
    match At(s, t)
    case Saving(msg, step) => SaveEffect(s, t, msg, step, c);
    case InBlock(step) => BlockEffect(s, t, step, c);
    case LockThread(_) =>
    case LockFile(_) =>
    case UnlockThread =>
    case LockOverlapped =>
  }

  lemma LockEffectKeepsLocks(s: State, s': State, t: Thread)
    requires LocksOk(s) && Moves(s, s', t) && LockEffect(s, s', t)
    ensures LocksOk(s')
  {
    forall u
      ensures u != t ==> At(s', u) == At(s, u)
      ensures HoldsFileLock(At(s, u)) && HoldsFileLock(At(s, t)) ==> u == t
    {
      if HoldsFileLock(At(s, u)) && HoldsFileLock(At(s, t)) {
        MutualExclusion(s, t, u);
      }
    }
  }

  lemma LocksAfterKill(s: State, p: nat)
    requires LocksOk(s)
    ensures LocksOk(Next(s, Kill(p)).value)
  {
    var s' := Next(s, Kill(p)).value;
    assert forall u :: At(s', u) == if u.process == p then Idle else At(s, u);
  }

  lemma LocksAfterBegin(s: State, t: Thread, task: Task)
    requires LocksOk(s) && Next(s, Begin(t, task)).Some?
    ensures LocksOk(Next(s, Begin(t, task)).value)
  {
    var s' := Next(s, Begin(t, task)).value;
    assert forall u :: u != t ==> At(s', u) == At(s, u);
  }

  // ---- Files ----

  ghost predicate SameFiles(s: State, s': State) {
    && s'.log == s.log && s'.rotated == s.rotated && s'.history == s.history && s'.rotations == s.rotations
    && s'.rotFrom == s.rotFrom && s'.rotTo == s.rotTo && s'.logFrom == s.logFrom
  }

  ghost predicate Appended(s: State, s': State, msg: Message) {
    && s'.log == Some((if s.log.Some? then s.log.value else []) + [msg])
    && s'.history == s.history + [msg]
    && s'.rotated == s.rotated && s'.rotations == s.rotations
    && s'.rotFrom == s.rotFrom && s'.rotTo == s.rotTo && s'.logFrom == s.logFrom
  }

  ghost predicate Rotated(s: State, s': State) {
    && s.log.Some? && s'.log == None && s'.rotated == s.log
    && s'.history == s.history && s'.rotations == s.rotations + 1
    && s'.rotFrom == s.logFrom && s'.rotTo == |s.history| && s'.logFrom == |s.history|
  }

  ghost predicate LogDeleted(s: State, s': State) {
    && s'.log == None && s'.logFrom == |s.history|
    && s'.rotated == s.rotated && s'.history == s.history && s'.rotations == s.rotations
    && s'.rotFrom == s.rotFrom && s'.rotTo == s.rotTo
  }

  ghost predicate RotatedDeleted(s: State, s': State) {
    && s'.rotated == None
    && s'.log == s.log && s'.history == s.history && s'.rotations == s.rotations
    && s'.rotFrom == s.rotFrom && s'.rotTo == s.rotTo && s'.logFrom == s.logFrom
  }

  /** The ways in which one step of t can change the files. */
  ghost predicate FileEffect(s: State, s': State, t: Thread) {
    var pc := At(s, t);
    || SameFiles(s, s')
    || (pc.Saving? && pc.save == Append && Appended(s, s', pc.msg))
    || (pc.Saving? && pc.save == Rename && Rotated(s, s'))
    || (pc == InBlock(DeleteLog) && LogDeleted(s, s'))
    || (pc == InBlock(DeleteRotated) && RotatedDeleted(s, s'))
  }

  lemma RunFileEffect(s: State, t: Thread, c: Choice)
    requires Next(s, Run(t, c)).Some?
    ensures FileEffect(s, Next(s, Run(t, c)).value, t)
  {
    match At(s, t)
    case Saving(msg, step) => SaveFileEffect(s, t, msg, step, c);
    case InBlock(step) => BlockFileEffect(s, t, step, c);
    case LockThread(_) =>
    case LockFile(_) =>
    case UnlockThread =>
    case LockOverlapped =>
  }

  lemma SaveFileEffect(s: State, t: Thread, msg: Message, step: SaveStep, c: Choice)
    requires At(s, t) == Saving(msg, step)
    ensures FileEffect(s, SaveNext(s, t, msg, step, c), t)
  {
  }

  lemma BlockFileEffect(s: State, t: Thread, step: BlockStep, c: Choice)
    requires At(s, t) == InBlock(step)
    ensures FileEffect(s, BlockNext(s, t, step, c), t)
  {
  }

  lemma {:induction false} SizeConcat(a: seq<Message>, b: seq<Message>)
    ensures Size(a + b) == Size(a) + Size(b)
    decreases |b|
  {
    if b == [] {
      assert a + b == a;
    } else {
      var n := |b| - 1;
      assert (a + b)[..|a + b| - 1] == a + b[..n];
      SizeConcat(a, b[..n]);
    }
  }

  lemma SizeOfPrefix(h: seq<Message>, m: nat, n: nat)
    requires m <= n <= |h|
    ensures Size(h[..n]) == Size(h[..m]) + Size(h[m..n])
  {
    assert h[..n] == h[..m] + h[m..n];
    SizeConcat(h[..m], h[m..n]);
  }

  lemma FileEffectKeepsFiles(s: State, s': State, t: Thread)
    requires FilesOk(s) && ViewOk(s, t) && FileEffect(s, s', t)
    ensures FilesOk(s')
  {
    var pc, n := At(s, t), |s.history|;
    SizeOfPrefix(s.history, s.logFrom, n);
    assert s.history[s.logFrom..n] == s.history[s.logFrom..] && s.history[..n] == s.history;
    if pc.Saving? && pc.save == Append && Appended(s, s', pc.msg) {
      assert s'.history[..s.logFrom] == s.history[..s.logFrom];
      assert s'.history[s.rotFrom..s.rotTo] == s.history[s.rotFrom..s.rotTo];
      assert s'.history[s.logFrom..] == s.history[s.logFrom..] + [pc.msg];
    }
  }

  // ---- What a lock holder has seen ----

  lemma OwnView(s: State, t: Thread, c: Choice)
    requires ViewOk(s, t) && Next(s, Run(t, c)).Some?
    ensures ViewOk(Next(s, Run(t, c)).value, t)
  {
    match At(s, t)
    case Saving(msg, step) => SaveView(s, t, msg, step, c);
    case InBlock(step) => BlockView(s, t, step, c);
    case LockThread(_) =>
    case LockFile(_) =>
    case UnlockThread =>
    case LockOverlapped =>
  }

  lemma SaveView(s: State, t: Thread, msg: Message, step: SaveStep, c: Choice)
    requires At(s, t) == Saving(msg, step)
    ensures ViewOk(SaveNext(s, t, msg, step, c), t)
  {
    match step
    case Check1 =>
    case TryThread =>
    case Check2 =>
    case TryFile =>
    case Check3 =>
    case Rename =>
    case ReleaseFile =>
    case ReleaseThread =>
    case Append =>
    case Overlapped =>
  }

  lemma BlockView(s: State, t: Thread, step: BlockStep, c: Choice)
    requires At(s, t) == InBlock(step) && ViewOk(s, t)
    ensures ViewOk(BlockNext(s, t, step, c), t)
  {
  }

  lemma OthersView(s: State, s': State, t: Thread, u: Thread)
    requires Invariant(s) && Moves(s, s', t) && FileEffect(s, s', t) && u != t
    ensures ViewOk(s', u)
  {
    assert At(s', u) == At(s, u) && ViewOk(s, u);
    if HoldsFileLock(At(s, u)) {
      if HoldsFileLock(At(s, t)) {
        MutualExclusion(s, t, u);
      }
      var pc := At(s, t);
      if pc.Saving? && pc.save == Append && Appended(s, s', pc.msg) && s.log.Some? {
        SizeConcat(s.log.value, [pc.msg]);
        assert [pc.msg][..0] == [];
      }
    }
  }

  /** Every action keeps the invariant. */
  lemma NextKeepsInvariant(s: State, a: Action)
    requires Invariant(s) && Next(s, a).Some?
    ensures Invariant(Next(s, a).value)
  {
    var s' := Next(s, a).value;
    match a
    case Begin(t, task) =>
      LocksAfterBegin(s, t, task);
      forall u
        ensures ViewOk(s', u)
      {
        assert ViewOk(s, u) && (u != t ==> At(s', u) == At(s, u));
      }
    case Run(t, c) =>
      RunEffect(s, t, c);
      RunFileEffect(s, t, c);
      LockEffectKeepsLocks(s, s', t);
      FileEffectKeepsFiles(s, s', t);
      OwnView(s, t, c);
      forall u
        ensures ViewOk(s', u)
      {
        if u != t {
          OthersView(s, s', t, u);
        }
      }
    case Kill(p) =>
      LocksAfterKill(s, p);
      forall u
        ensures ViewOk(s', u)
      {
        assert ViewOk(s, u) && At(s', u) == if u.process == p then Idle else At(s, u);
      }
  }

  // ---- Runs ----

  /** Action k leads from state k to the one after it. */
  ghost predicate StepAt(states: seq<State>, actions: seq<Action>, k: nat)
    requires k < |actions| && |states| == |actions| + 1
  {
    Next(states[k], actions[k]) == Some(states[k + 1])
  }

  ghost predicate IsRun(states: seq<State>, actions: seq<Action>) {
    && |states| == |actions| + 1
    && states[0] == START
    && forall k :: 0 <= k < |actions| ==> StepAt(states, actions, k)
  }

  lemma StartIsGood()
    ensures Invariant(START)
  {
    assert START.history[..0] == [];
  }

  /** The invariant holds at every point of every interleaving. */
  lemma {:induction false} RunsAreGood(states: seq<State>, actions: seq<Action>, i: nat)
    requires IsRun(states, actions) && i <= |actions|
    ensures Invariant(states[i])
    decreases i
  {
    if i == 0 {
      StartIsGood();
    } else {
      RunsAreGood(states, actions, i - 1);
      assert StepAt(states, actions, i - 1);
      NextKeepsInvariant(states[i - 1], actions[i - 1]);
    }
  }

  // ---- Rotation ----

  /** The log file now starts with what it held before. */
  ghost predicate Extends(file: Option<seq<Message>>, file': Option<seq<Message>>) {
    file.Some? ==> file'.Some? && file.value <= file'.value
  }

  /** The files shrink or move only in steps of the thread that holds both locks. */
  lemma OnlyLockHoldersShrink(s: State, a: Action, s': State)
    requires Invariant(s) && Next(s, a) == Some(s')
    requires s'.rotated != s.rotated || !Extends(s.log, s'.log)
    ensures a.Run? && HoldsThreadLock(At(s, a.t)) && HoldsFileLock(At(s, a.t))
    ensures s.fileLock == Some(a.t.process)
    ensures a.t.process in s.threadLocks && s.threadLocks[a.t.process] == a.t
    ensures forall u :: HoldsFileLock(At(s, u)) ==> u == a.t
  {
    if a.Run? {
      RunFileEffect(s, a.t, a.c);
      forall u | HoldsFileLock(At(s, u)) && HoldsFileLock(At(s, a.t))
        ensures u == a.t
      {
        MutualExclusion(s, u, a.t);
      }
    }
  }

  /**
   A rename moves a file that is still too long, made only of messages appended since the
   log was last moved or deleted, and leaves no log file for a second logger to rotate.
   */
  lemma RenameMovesOneOverflow(s: State, a: Action, s': State)
    requires Invariant(s) && Next(s, a) == Some(s') && s'.rotations != s.rotations
    ensures s'.rotations == s.rotations + 1 && a.Run?
    ensures s.log.Some? && Size(s.log.value) > 1024 * 1024
    ensures s.log.value == s.history[s.logFrom..] && s'.logFrom == |s'.history|
    ensures s'.rotated == s.log && s'.log == None && !TooLong(s')
  {
    RunFileEffect(s, a.t, a.c);
    assert ViewOk(s, a.t);
  }

  /** Every rotation has used up more than LOG_MAX_FILE_SIZE bytes of its own. */
  lemma RotationsAreBounded(states: seq<State>, actions: seq<Action>, i: nat)
    requires IsRun(states, actions) && i <= |actions|
    ensures states[i].rotations * (LOG_MAX_FILE_SIZE + 1) <= Size(states[i].history)
  {
    RunsAreGood(states, actions, i);
    var s := states[i];
    SizeOfPrefix(s.history, s.logFrom, |s.history|);
    assert s.history[..|s.history|] == s.history;
  }

  /** All three checks look: a short log is left alone, and what has been taken is given back. */
  lemma ChecksExactly(s: State, t: Thread, msg: Message, step: SaveStep, c: Choice)
    requires At(s, t) == Saving(msg, step) && step in {Check1, Check2, Check3}
    ensures var s' := SaveNext(s, t, msg, step, c);
            && SameFiles(s, s') && s'.fileLock == s.fileLock && s'.threadLocks == s.threadLocks
            && At(s', t) == Saving(msg, if Length(s.log) > 1024 * 1024
                                        then (if step == Check1 then TryThread else if step == Check2 then TryFile
                                              else Rename)
                                        else (if step == Check1 then Append else if step == Check2 then ReleaseThread
                                              else ReleaseFile))
  {
  }

  /** A call that fails changes no file and takes no lock; only a lock that cannot be had skips the rest. */
  lemma FailedCallExactly(s: State, t: Thread)
    requires Next(s, Run(t, Fails)).Some?
    ensures var s', pc := Next(s, Run(t, Fails)).value, At(s, t);
            && (pc.InBlock? || pc.LockFile? || (pc.Saving? && pc.save in {TryFile, Rename, ReleaseFile, Append}) ==>
                  SameFiles(s, s') && s'.fileLock == s.fileLock && s'.threadLocks == s.threadLocks)
            && (pc.LockFile? && s.fileLock != Some(t.process) ==> At(s', t) == UnlockThread)
            && (pc == InBlock(DeleteLog) ==> At(s', t) == InBlock(DeleteRotated))
            && (pc == InBlock(DeleteRotated) ==> At(s', t) == InBlock(Finished))
            && (pc.Saving? && pc.save == TryFile && s.fileLock != Some(t.process) ==>
                  At(s', t) == Saving(pc.msg, ReleaseThread))
            && (pc.Saving? && pc.save == Rename ==> At(s', t) == Saving(pc.msg, ReleaseFile))
  {
  }

  // ---- Locks: no overlap, no deadlock ----

  /** t is about to ask for the file lock. */
  ghost predicate AsksForFileLock(pc: Pc) { pc.LockFile? || (pc.Saving? && pc.save == TryFile) }

  /** t has got the platform's overlapping-lock exception, which nobody catches. */
  ghost predicate Overlaps(pc: Pc) { pc.LockOverlapped? || (pc.Saving? && pc.save == Overlapped) }

  /**
   A thread that asks for the file lock gets the exception exactly if an earlier release in
   its own process failed, which left the lock behind.
   */
  lemma OverlapExactly(s: State, a: Action, s': State)
    requires LocksOk(s) && Next(s, a) == Some(s') && a.Run? && AsksForFileLock(At(s, a.t))
    ensures Overlaps(At(s', a.t)) <==> s.leaked && s.fileLock == Some(a.t.process)
  {
    assert HoldsThreadLock(At(s, a.t));
  }

  /** In no other step does the exception arise. */
  lemma OnlyAskingOverlaps(s: State, a: Action, s': State, t: Thread)
    requires Next(s, a) == Some(s') && Overlaps(At(s', t)) && !Overlaps(At(s, t))
    ensures a.Run? && a.t == t && AsksForFileLock(At(s, t))
  {
    if a.Run? {
      RunEffect(s, a.t, a.c);
      assert a.t != t ==> At(s', t) == At(s, t);
      OwnRunOverlaps(s, t, a.c);
    } else {
      OnlyRunsOverlap(s, a, t);
    }
  }

  lemma OwnRunOverlaps(s: State, t: Thread, c: Choice)
    ensures Next(s, Run(t, c)).Some? && Overlaps(At(Next(s, Run(t, c)).value, t)) ==> AsksForFileLock(At(s, t))
  {
    match At(s, t)
    case Idle =>
    case Saving(msg, step) => SaveOverlaps(s, t, msg, step, c);
    case LockThread(_) =>
    case LockFile(_) =>
    case InBlock(step) => BlockNeverOverlaps(s, t, step, c);
    case UnlockThread =>
    case LockOverlapped =>
  }

  lemma BlockNeverOverlaps(s: State, t: Thread, step: BlockStep, c: Choice)
    ensures !Overlaps(At(BlockNext(s, t, step, c), t))
  {
  }

  lemma SaveOverlaps(s: State, t: Thread, msg: Message, step: SaveStep, c: Choice)
    requires At(s, t) == Saving(msg, step)
    ensures At(SaveNext(s, t, msg, step, c), t) == Saving(msg, Overlapped) ==> step == TryFile
  {
  }

  lemma OnlyRunsOverlap(s: State, a: Action, t: Thread)
    requires Next(s, a).Some? && !a.Run? && !Overlaps(At(s, t))
    ensures !Overlaps(At(Next(s, a).value, t))
  {
  }

  /** The release of the file lock fails. */
  ghost predicate LeakBegins(s: State, a: Action) {
    && a.Run? && a.c == Fails
    && (At(s, a.t) == InBlock(Finished) || (At(s, a.t).Saving? && At(s, a.t).save == ReleaseFile))
  }

  /** A lock is left behind exactly when its release fails. */
  lemma LeakExactly(s: State, a: Action, s': State)
    requires Next(s, a) == Some(s') && !s.leaked
    ensures s'.leaked <==> LeakBegins(s, a)
  {
  }

  /** The history grows only by a successful append, which ends the save of that very message. */
  lemma HistoryGrowsByAppend(s: State, a: Action, s': State)
    requires Next(s, a) == Some(s')
    ensures s'.history == s.history
            || (&& a.Run? && a.c == Succeeds && At(s, a.t).Saving? && At(s, a.t).save == Append
                && s'.history == s.history + [At(s, a.t).msg] && At(s', a.t) == Idle)
  {
    if a.Run? {
      RunFileEffect(s, a.t, a.c);
    }
  }

  /** The last step of a save: either the append, or the exception passing through. */
  lemma SaveEnds(s: State, t: Thread, c: Choice)
    requires At(s, t).Saving? && Next(s, Run(t, c)).Some? && !At(Next(s, Run(t, c)).value, t).Saving?
    ensures var s' := Next(s, Run(t, c)).value;
            && At(s', t) == Idle && At(s, t).save in {Append, Overlapped}
            && s'.history == s.history + (if At(s, t).save == Append && c == Succeeds then [At(s, t).msg] else [])
  {
    SaveEndsAs(s, t, At(s, t).msg, At(s, t).save, c);
  }

  lemma SaveEndsAs(s: State, t: Thread, msg: Message, step: SaveStep, c: Choice)
    requires At(s, t) == Saving(msg, step)
    ensures var s' := SaveNext(s, t, msg, step, c);
            if step == Append || step == Overlapped then
              At(s', t) == Idle && s'.history == s.history + (if step == Append && c == Succeeds then [msg] else [])
            else
              At(s', t).Saving? && At(s', t).msg == msg && s'.history == s.history
  {
    assert s.history + [] == s.history;
  }

  /** The actions i to j - 1 of a run take one save of msg by t from its start to its end. */
  ghost predicate SaveRun(states: seq<State>, actions: seq<Action>, t: Thread, msg: Message, i: nat, j: nat) {
    && IsRun(states, actions) && i + 1 < j <= |actions|
    && actions[i] == Begin(t, Save(msg)) && !At(states[j], t).Saving?
    && (forall k :: i < k < j ==> At(states[k], t).Saving?)
    && (forall k :: i < k < j ==> actions[k] != Kill(t.process))
  }

  /** Action k appends a message, and is a step of t. */
  ghost predicate AppendsAt(states: seq<State>, actions: seq<Action>, t: Thread, k: nat)
    requires k < |actions| && |states| == |actions| + 1
  {
    actions[k].Run? && actions[k].t == t && states[k + 1].history != states[k].history
  }

  /** Between its first and its last step a save goes on with its message and appends nothing. */
  lemma {:induction false} SaveGoesOn(
    states: seq<State>, actions: seq<Action>, t: Thread, msg: Message, i: nat, j: nat, k: nat
  )
    requires SaveRun(states, actions, t, msg, i, j) && i <= k < j - 1
    ensures At(states[k + 1], t).Saving? && At(states[k + 1], t).msg == msg
    ensures !AppendsAt(states, actions, t, k)
    decreases k
  {
    assert StepAt(states, actions, k);
    if k > i {
      SaveGoesOn(states, actions, t, msg, i, j, k - 1);
      OtherActionsLeave(states[k], actions[k], states[k + 1], t);
      if actions[k].Run? && actions[k].t == t {
        SaveEndsAs(states[k], t, msg, At(states[k], t).save, actions[k].c);
      }
    }
  }

  lemma OtherActionsLeave(s: State, a: Action, s': State, t: Thread)
    requires Next(s, a) == Some(s') && At(s, t).Saving? && a != Kill(t.process)
    ensures (a.Run? && a.t == t) || At(s', t) == At(s, t)
  {
    if a.Run? {
      RunEffect(s, a.t, a.c);
    }
  }

  /**
   A save that ends has appended its message exactly if its last step is a successful
   append; else that step is a failed append or the exception, and nothing was appended.
   */
  lemma SaveAppendsExactly(states: seq<State>, actions: seq<Action>, t: Thread, msg: Message, i: nat, j: nat)
    requires SaveRun(states, actions, t, msg, i, j)
    ensures forall k :: i <= k < j - 1 ==> !AppendsAt(states, actions, t, k)
    ensures actions[j - 1].Run? && actions[j - 1].t == t && At(states[j - 1], t).Saving?
    ensures At(states[j - 1], t).save in {Append, Overlapped}
    ensures states[j].history == states[j - 1].history +
              if At(states[j - 1], t).save == Append && actions[j - 1].c == Succeeds then [msg] else []
  {
    forall k | i <= k < j - 1
      ensures !AppendsAt(states, actions, t, k)
    {
      SaveGoesOn(states, actions, t, msg, i, j, k);
    }
    SaveGoesOn(states, actions, t, msg, i, j, j - 2);
    var s := states[j - 1];
    assert StepAt(states, actions, j - 1);
    OtherActionsLeave(s, actions[j - 1], states[j], t);
    SaveEnds(s, t, actions[j - 1].c);
  }

  /** Unless a lock was left behind, a blocked thread waits for one that can go on. */
  lemma NoDeadlock(s: State, t: Thread) returns (u: Thread)
    requires Invariant(s) && !s.leaked && At(s, t) != Idle
    ensures At(s, u) != Idle && Next(s, Run(u, Succeeds)).Some?
  {
    u := t;
    if At(s, u).LockThread? && !Free(s, u) {
      u := s.threadLocks[u.process];
      assert HoldsThreadLock(At(s, u));
    }
    if At(s, u).LockFile? && s.fileLock.Some? && s.fileLock != Some(u.process) {
      u := s.threadLocks[s.fileLock.value];
      assert HoldsFileLock(At(s, u));
    }
  }

  ghost predicate CanGoOn(s: State, u: Thread) {
    At(s, u) != Idle && Next(s, Run(u, Succeeds)).Some?
  }

  /** Behind a lock that another process has left behind, at once or behind a thread of its own process. */
  ghost predicate StuckBehindLeak(s: State, u: Thread) {
    && s.leaked && s.fileLock.Some? && s.fileLock.value != u.process
    && (At(s, u).LockFile? || (At(s, u).LockThread? && u.process in s.threadLocks && s.threadLocks[u.process] != u))
  }

  /** Nobody can go on exactly if everybody who is busy waits for a lock that was left behind. */
  lemma DeadlockExactly(s: State)
    requires Invariant(s)
    ensures (forall u :: !CanGoOn(s, u)) <==> forall u :: At(s, u) != Idle ==> StuckBehindLeak(s, u)
  {
    if forall u :: !CanGoOn(s, u) {
      forall u | At(s, u) != Idle
        ensures StuckBehindLeak(s, u)
      {
        if !s.leaked {
          var v := NoDeadlock(s, u);
          assert CanGoOn(s, v);
        }
        BlockedBehindLeak(s, u);
      }
    }
    forall u | StuckBehindLeak(s, u)
      ensures !CanGoOn(s, u)
    {
    }
  }

  lemma BlockedBehindLeak(s: State, u: Thread)
    requires Invariant(s) && s.leaked && forall v :: !CanGoOn(s, v)
    requires At(s, u) != Idle
    ensures StuckBehindLeak(s, u)
  {
    assert !CanGoOn(s, u);
    if At(s, u).LockThread? {
      var v := s.threadLocks[u.process];
      assert HoldsThreadLock(At(s, v)) && !CanGoOn(s, v);
    }
  }

  /** A thread that waits for a lock left behind by another process cannot get it while that stays so. */
  lemma WaitLasts(s: State, a: Action, s': State, u: Thread)
    requires Invariant(s) && Next(s, a) == Some(s') && s.leaked && s.fileLock.Some? && s.fileLock.value != u.process
    requires At(s, u).LockFile? && a != Kill(s.fileLock.value) && a != Kill(u.process) && a != Run(u, Fails)
    ensures At(s', u) == At(s, u) && s'.leaked && s'.fileLock == s.fileLock && !CanGoOn(s', u)
  {
    LeakStep(s, a, s', s.fileLock.value);
    if a.Run? {
      RunEffect(s, a.t, a.c);
    }
  }

  // ---- Locks that are left behind ----

  /** Some process's release failed before point i, and that process has not been killed since. */
  ghost predicate LeftLocked(states: seq<State>, actions: seq<Action>, i: nat, p: nat)
    requires |states| == |actions| + 1 && i <= |actions|
  {
    exists j :: 0 <= j < i && LeakBegins(states[j], actions[j]) && actions[j].t.process == p
                && forall k :: j < k < i ==> actions[k] != Kill(p)
  }

  /** A lock that was left behind stays with its process until that is killed. */
  lemma LeakStep(s: State, a: Action, s': State, p: nat)
    requires LocksOk(s) && Next(s, a) == Some(s')
    ensures s'.leaked && s'.fileLock == Some(p) <==>
              || (LeakBegins(s, a) && a.t.process == p)
              || (s.leaked && s.fileLock == Some(p) && a != Kill(p))
  {
    if a.Run? {
      RunEffect(s, a.t, a.c);
      LeakOfRun(s, a.t, a.c);
    }
  }

  lemma LeakOfRun(s: State, t: Thread, c: Choice)
    requires LocksOk(s) && Next(s, Run(t, c)).Some?
    ensures var s' := Next(s, Run(t, c)).value;
            && (s'.leaked <==> s.leaked || LeakBegins(s, Run(t, c)))
            && (s'.leaked ==> s'.fileLock == s.fileLock)
            && (LeakBegins(s, Run(t, c)) ==> s.fileLock == Some(t.process) && !s.leaked)
  {
    assert HoldsFileLock(At(s, t)) ==> s.fileLock == Some(t.process) && !s.leaked;
  }

  lemma LeftLockedStep(states: seq<State>, actions: seq<Action>, i: nat, p: nat)
    requires |states| == |actions| + 1 && 0 < i <= |actions|
    ensures LeftLocked(states, actions, i, p)
       <==> || (LeakBegins(states[i - 1], actions[i - 1]) && actions[i - 1].t.process == p)
            || (LeftLocked(states, actions, i - 1, p) && actions[i - 1] != Kill(p))
  {
    if LeftLocked(states, actions, i - 1, p) && actions[i - 1] != Kill(p) {
      var j :| 0 <= j < i - 1 && LeakBegins(states[j], actions[j]) && actions[j].t.process == p
               && forall k :: j < k < i - 1 ==> actions[k] != Kill(p);
      assert forall k :: j < k < i ==> k == i - 1 || actions[k] != Kill(p);
    }
  }

  /** In every run a process's lock is left behind exactly if one of its releases failed and it still lives. */
  lemma {:induction false} LeakedExactly(states: seq<State>, actions: seq<Action>, i: nat, p: nat)
    requires IsRun(states, actions) && i <= |actions|
    ensures states[i].leaked && states[i].fileLock == Some(p) <==> LeftLocked(states, actions, i, p)
    decreases i
  {
    if i > 0 {
      LeakedExactly(states, actions, i - 1, p);
      RunsAreGood(states, actions, i - 1);
      assert StepAt(states, actions, i - 1);
      LeakStep(states[i - 1], actions[i - 1], states[i], p);
      LeftLockedStep(states, actions, i, p);
    }
  }

  /** So in every run a thread gets the exception exactly if its living process has had a failed release. */
  lemma OverlapsInRunsExactly(states: seq<State>, actions: seq<Action>, i: nat)
    requires IsRun(states, actions) && i < |actions| && actions[i].Run?
    requires AsksForFileLock(At(states[i], actions[i].t))
    ensures Overlaps(At(states[i + 1], actions[i].t)) <==> LeftLocked(states, actions, i, actions[i].t.process)
  {
    RunsAreGood(states, actions, i);
    assert StepAt(states, actions, i);
    OverlapExactly(states[i], actions[i], states[i + 1]);
    LeakedExactly(states, actions, i, actions[i].t.process);
  }

  // ---- Reading ----

  /** A complete read returns a stretch of the history, then everything from a later point on. */
  lemma ReadsAreOrdered(s: State, a: Action, text: seq<Message>)
    requires Invariant(s) && Reads(s, a, text)
    ensures s.rotFrom <= s.rotTo <= s.logFrom <= |s.history|
    ensures text == (if s.rotated.Some? then s.history[s.rotFrom..s.rotTo] else []) + s.history[s.logFrom..]
  {
    assert ViewOk(s, a.t);
  }

  /** Messages between the rotated file and the log are lost, and nobody is about to fix that. */
  ghost predicate Gap(s: State) {
    s.rotated.Some? && s.rotTo < s.logFrom && forall t :: At(s, t) != InBlock(DeleteRotated)
  }

  /** A read is a suffix of everything appended so far unless there is such a gap. */
  lemma ReadIsSuffix(s: State, a: Action, text: seq<Message>)
    requires Invariant(s) && Reads(s, a, text) && !Gap(s)
    ensures exists k :: 0 <= k <= |s.history| && text == s.history[k..]
  {
    ReadsAreOrdered(s, a, text);
    forall t
      ensures At(s, t) != InBlock(DeleteRotated)
    {
      if HoldsFileLock(At(s, t)) {
        MutualExclusion(s, t, a.t);
      }
    }
    if s.rotated.Some? {
      assert text == s.history[s.rotFrom..];
    } else {
      assert text == s.history[s.logFrom..];
    }
  }

  ghost predicate AllDifferent(ms: seq<Message>) { forall i, j :: 0 <= i < j < |ms| ==> ms[i] != ms[j] }

  /** When messages can be told apart, a read is a suffix exactly if there is no gap. */
  lemma ReadIsSuffixExactly(s: State, a: Action, text: seq<Message>)
    requires Invariant(s) && Reads(s, a, text) && AllDifferent(s.history)
    ensures (exists k :: 0 <= k <= |s.history| && text == s.history[k..]) <==> !Gap(s)
  {
    ReadsAreOrdered(s, a, text);
    if !Gap(s) {
      ReadIsSuffix(s, a, text);
    } else {
      forall k | 0 <= k <= |s.history|
        ensures text != s.history[k..]
      {
        assert text[0] == s.history[s.rotFrom];
        assert k < |s.history| ==> s.history[k..][0] == s.history[k];
      }
    }
  }

  /** clearLogs is cut short after the log is gone and before the rotated file is. */
  ghost predicate ClearBreaks(s: State, a: Action) {
    && s.rotated.Some? && s.rotTo < s.logFrom
    && match a
       case Run(t, c) => At(s, t) == InBlock(DeleteRotated) && c == Fails
       case Kill(p) => exists t :: At(s, t) == InBlock(DeleteRotated) && t.process == p
       case Begin(_, _) => false
  }

  /** Gaps arise exactly when a clear is cut short between its two deletions. */
  lemma GapExactly(s: State, a: Action, s': State)
    requires Invariant(s) && Next(s, a) == Some(s') && !Gap(s)
    ensures Gap(s') <==> ClearBreaks(s, a)
  {
    if a.Run? {
      RunEffect(s, a.t, a.c);
      RunFileEffect(s, a.t, a.c);
      forall u
        ensures u != a.t ==> At(s', u) == At(s, u)
        ensures At(s, u) == InBlock(DeleteRotated) && HoldsFileLock(At(s, a.t)) ==> u == a.t
      {
        if HoldsFileLock(At(s, u)) && HoldsFileLock(At(s, a.t)) {
          MutualExclusion(s, u, a.t);
        }
      }
    } else {
      forall u
        ensures At(s', u) == InBlock(DeleteRotated)
           <==> At(s, u) == InBlock(DeleteRotated) && !(a.Kill? && u.process == a.process)
      {
      }
      forall u, v | At(s, u) == InBlock(DeleteRotated) && At(s, v) == InBlock(DeleteRotated)
        ensures u == v
      {
        MutualExclusion(s, u, v);
      }
    }
  }

  /** In runs where no clear is cut short every complete read is a suffix of the history. */
  lemma ReadsInCleanRuns(states: seq<State>, actions: seq<Action>, i: nat, text: seq<Message>)
    requires IsRun(states, actions) && i < |actions| && Reads(states[i], actions[i], text)
    requires forall j :: 0 <= j < i ==> !ClearBreaks(states[j], actions[j])
    ensures exists k :: 0 <= k <= |states[i].history| && text == states[i].history[k..]
  {
    RunsAreGood(states, actions, i);
    NoGapInCleanRuns(states, actions, i);
    ReadIsSuffix(states[i], actions[i], text);
  }

  lemma {:induction false} NoGapInCleanRuns(states: seq<State>, actions: seq<Action>, i: nat)
    requires IsRun(states, actions) && i <= |actions|
    requires forall j :: 0 <= j < i ==> !ClearBreaks(states[j], actions[j])
    ensures !Gap(states[i])
    decreases i
  {
    if i > 0 {
      NoGapInCleanRuns(states, actions, i - 1);
      RunsAreGood(states, actions, i - 1);
      assert StepAt(states, actions, i - 1);
      GapExactly(states[i - 1], actions[i - 1], states[i]);
    }
  }

  /** A rename that replaces the rotated file, or a new clear on its way to deleting it. */
  ghost predicate GapMends(s: State, a: Action) {
    a.Run? && (At(s, a.t) == InBlock(DeleteLog)
               || (At(s, a.t).Saving? && At(s, a.t).save == Rename && s.log.Some? && a.c == Succeeds))
  }

  /** Gaps end exactly with a rename or a new clear. */
  lemma GapEndsExactly(s: State, a: Action, s': State)
    requires Invariant(s) && Next(s, a) == Some(s') && Gap(s)
    ensures !Gap(s') <==> GapMends(s, a)
  {
    if a.Run? {
      RunEffect(s, a.t, a.c);
      RunFileEffect(s, a.t, a.c);
      GapWhileRunning(s, a.t, a.c);
      forall u
        ensures u != a.t ==> At(s', u) != InBlock(DeleteRotated)
      {
        assert u != a.t ==> At(s', u) == At(s, u);
      }
    } else {
      forall u
        ensures At(s', u) != InBlock(DeleteRotated)
      {
        assert At(s, u) != InBlock(DeleteRotated);
      }
    }
  }

  lemma GapWhileRunning(s: State, t: Thread, c: Choice)
    requires ViewOk(s, t) && Next(s, Run(t, c)).Some? && At(s, t) != InBlock(DeleteRotated) && s.rotated.Some?
    ensures var s' := Next(s, Run(t, c)).value;
            && (At(s', t) == InBlock(DeleteRotated) <==> At(s, t) == InBlock(DeleteLog))
            && (|| s'.rotated == s.rotated
                || (At(s, t).Saving? && At(s, t).save == Rename && s.log.Some? && c == Succeeds))
  {
  }

  /** Some clear before point i was cut short, and nothing has mended that since. */
  ghost predicate Broken(states: seq<State>, actions: seq<Action>, i: nat)
    requires |states| == |actions| + 1 && i <= |actions|
  {
    exists j :: 0 <= j < i && ClearBreaks(states[j], actions[j])
                && forall k :: j < k < i ==> !GapMends(states[k], actions[k])
  }

  lemma {:induction false} GapIffBroken(states: seq<State>, actions: seq<Action>, i: nat)
    requires IsRun(states, actions) && i <= |actions|
    ensures Gap(states[i]) <==> Broken(states, actions, i)
    decreases i
  {
    if i > 0 {
      var s, a, s' := states[i - 1], actions[i - 1], states[i];
      GapIffBroken(states, actions, i - 1);
      RunsAreGood(states, actions, i - 1);
      assert StepAt(states, actions, i - 1);
      if Gap(s) {
        GapEndsExactly(s, a, s');
        BreaksOnlyWithoutGap(s, a);
      } else {
        GapExactly(s, a, s');
      }
      BrokenStep(states, actions, i);
    }
  }

  lemma BrokenStep(states: seq<State>, actions: seq<Action>, i: nat)
    requires |states| == |actions| + 1 && 0 < i <= |actions|
    ensures Broken(states, actions, i)
       <==> ClearBreaks(states[i - 1], actions[i - 1])
            || (Broken(states, actions, i - 1) && !GapMends(states[i - 1], actions[i - 1]))
  {
    if Broken(states, actions, i - 1) && !GapMends(states[i - 1], actions[i - 1]) {
      var j :| 0 <= j < i - 1 && ClearBreaks(states[j], actions[j])
               && forall k :: j < k < i - 1 ==> !GapMends(states[k], actions[k]);
      assert forall k :: j < k < i ==> k == i - 1 || !GapMends(states[k], actions[k]);
    }
  }

  lemma BreaksOnlyWithoutGap(s: State, a: Action)
    requires Gap(s)
    ensures !ClearBreaks(s, a)
  {
  }

  /** In any run of different messages a complete read is a suffix unless a clear is still broken. */
  lemma ReadsInRunsExactly(states: seq<State>, actions: seq<Action>, i: nat, text: seq<Message>)
    requires IsRun(states, actions) && i < |actions| && Reads(states[i], actions[i], text)
    requires AllDifferent(states[i].history)
    ensures (exists k :: 0 <= k <= |states[i].history| && text == states[i].history[k..])
       <==> !Broken(states, actions, i)
  {
    RunsAreGood(states, actions, i);
    GapIffBroken(states, actions, i);
    ReadIsSuffixExactly(states[i], actions[i], text);
  }

  // ---- Undisturbed reads and clears ----

  /** t stands in a read that has not been disturbed, before the lock is released. */
  predicate InRead(pc: Pc) {
    match pc
    case LockThread(first) => first == CheckRotated
    case LockFile(first) => first == CheckRotated
    case InBlock(step) => step.CheckRotated? || step.ReadRotated? || step.CheckLog? || step.ReadLog?
    case _ => false
  }

  predicate Leaving(pc: Pc) { pc == InBlock(Finished) || pc == UnlockThread || pc == Idle }

  /** The action is a step of t that completes a read. */
  ghost predicate ReadsBy(s: State, a: Action, t: Thread) {
    a.Run? && a.t == t && exists text :: Reads(s, a, text)
  }

  /** A read whose calls succeed gets from step to step, and leaves the block by a complete read only. */
  lemma ReadStep(s: State, t: Thread, s': State)
    requires Invariant(s) && Next(s, Run(t, Succeeds)) == Some(s') && InRead(At(s, t))
    ensures InRead(At(s', t)) || At(s', t) == InBlock(Finished) || Overlaps(At(s', t))
    ensures ReadsBy(s, Run(t, Succeeds), t) <==> At(s', t) == InBlock(Finished)
  {
    assert ViewOk(s, t);
    match At(s, t)
    case LockThread(_) =>
    case LockFile(_) =>
    case InBlock(CheckLog(before)) =>
      if s.log.None? {
        assert Reads(s, Run(t, Succeeds), before);
      }
    case InBlock(ReadLog(before)) =>
      assert Reads(s, Run(t, Succeeds), before + s.log.value);
    case InBlock(CheckRotated) =>
    case InBlock(ReadRotated) =>
  }

  /** A file that cannot be read ends the read, and what was read so far is all there is. */
  lemma FailedReadEnds(s: State, t: Thread)
    requires At(s, t).InBlock? && (At(s, t).block.ReadRotated? || At(s, t).block.ReadLog?)
    ensures var s' := Next(s, Run(t, Fails)).value;
            Next(s, Run(t, Fails)).Some? && At(s', t) == InBlock(Finished) && !ReadsBy(s, Run(t, Fails), t)
  {
  }

  lemma LeavingStep(s: State, t: Thread, s': State)
    requires Next(s, Run(t, Succeeds)) == Some(s') && Leaving(At(s, t))
    ensures Leaving(At(s', t)) && !ReadsBy(s, Run(t, Succeeds), t)
  {
  }

  /** The actions i to j - 1 of a run take one task of t, with no failing call, exception or kill. */
  ghost predicate Undisturbed(states: seq<State>, actions: seq<Action>, t: Thread, task: Task, i: nat, j: nat) {
    && IsRun(states, actions) && i + 1 < j <= |actions|
    && actions[i] == Begin(t, task) && At(states[j], t) == Idle
    && forall k :: i < k < j ==> CalmAt(states, actions, t, k)
  }

  /** At action k the task goes on: no exception has come, t is not killed, and if t acts its call succeeds. */
  ghost predicate CalmAt(states: seq<State>, actions: seq<Action>, t: Thread, k: nat)
    requires k < |actions| && |states| == |actions| + 1
  {
    && At(states[k], t) != Idle && !Overlaps(At(states[k], t))
    && actions[k] != Kill(t.process) && (actions[k].Run? && actions[k].t == t ==> actions[k].c == Succeeds)
  }

  /** An action that leaves t's task undisturbed. */
  ghost predicate Leaves(s: State, a: Action, s': State, t: Thread) {
    && Next(s, a) == Some(s') && At(s, t) != Idle && !Overlaps(At(s', t)) && a != Kill(t.process)
    && (a.Run? && a.t == t ==> a.c == Succeeds)
  }

  lemma UndisturbedStep(states: seq<State>, actions: seq<Action>, t: Thread, task: Task, i: nat, j: nat, k: nat)
    requires Undisturbed(states, actions, t, task, i, j) && i < k < j
    ensures Invariant(states[k]) && Leaves(states[k], actions[k], states[k + 1], t)
  {
    RunsAreGood(states, actions, k);
    assert StepAt(states, actions, k) && CalmAt(states, actions, t, k);
    NotOverlapped(states, actions, t, task, i, j, k + 1);
  }

  lemma NotOverlapped(states: seq<State>, actions: seq<Action>, t: Thread, task: Task, i: nat, j: nat, k: nat)
    requires Undisturbed(states, actions, t, task, i, j) && i < k <= j
    ensures !Overlaps(At(states[k], t))
  {
    assert k == j || CalmAt(states, actions, t, k);
  }

  lemma UndisturbedStart(states: seq<State>, actions: seq<Action>, t: Thread, task: Task, i: nat, j: nat)
    requires Undisturbed(states, actions, t, task, i, j)
    ensures states[i + 1].history == states[i].history && !ReadsBy(states[i], actions[i], t)
    ensures task == Task.Read ==> At(states[i + 1], t) == LockThread(CheckRotated)
    ensures task == Clear ==> At(states[i + 1], t) == LockThread(DeleteLog)
  {
    assert StepAt(states, actions, i);
  }

  lemma OthersLeave(s: State, a: Action, s': State, t: Thread)
    requires Next(s, a) == Some(s') && a != Kill(t.process) && !(a.Run? && a.t == t) && At(s, t) != Idle
    ensures At(s', t) == At(s, t)
  {
    if a.Run? {
      RunEffect(s, a.t, a.c);
    }
  }

  lemma ReadAction(s: State, a: Action, s': State, t: Thread)
    requires Invariant(s) && Leaves(s, a, s', t) && (InRead(At(s, t)) || Leaving(At(s, t)))
    ensures InRead(At(s', t)) || Leaving(At(s', t))
    ensures ReadsBy(s, a, t) <==> Leaving(At(s', t)) && !Leaving(At(s, t))
    ensures Leaving(At(s, t)) ==> Leaving(At(s', t))
  {
    if a.Run? && a.t == t {
      assert a == Run(t, Succeeds);
      if InRead(At(s, t)) {
        ReadStep(s, t, s');
      } else {
        LeavingStep(s, t, s');
      }
    } else {
      OthersLeave(s, a, s', t);
    }
  }

  lemma ReadActionAt(states: seq<State>, actions: seq<Action>, t: Thread, i: nat, j: nat, k: nat)
    requires Undisturbed(states, actions, t, Task.Read, i, j) && i < k < j
    requires InRead(At(states[k], t)) || Leaving(At(states[k], t))
    ensures InRead(At(states[k + 1], t)) || Leaving(At(states[k + 1], t))
    ensures ReadsBy(states[k], actions[k], t) <==> Leaving(At(states[k + 1], t)) && !Leaving(At(states[k], t))
    ensures Leaving(At(states[k], t)) ==> Leaving(At(states[k + 1], t))
  {
    UndisturbedStep(states, actions, t, Task.Read, i, j, k);
    ReadAction(states[k], actions[k], states[k + 1], t);
  }

  lemma {:induction false} ReadGoesOn(states: seq<State>, actions: seq<Action>, t: Thread, i: nat, j: nat, k: nat)
    requires Undisturbed(states, actions, t, Task.Read, i, j) && i < k <= j
    ensures InRead(At(states[k], t)) || Leaving(At(states[k], t))
    decreases k
  {
    if k == i + 1 {
      UndisturbedStart(states, actions, t, Task.Read, i, j);
    } else {
      ReadGoesOn(states, actions, t, i, j, k - 1);
      ReadActionAt(states, actions, t, i, j, k - 1);
    }
  }

  lemma {:induction false} StaysTrue(flags: seq<bool>, k: nat, l: nat)
    requires k <= l < |flags| && flags[k] && forall i :: k <= i < |flags| - 1 && flags[i] ==> flags[i + 1]
    ensures flags[l]
    decreases l
  {
    if k < l {
      StaysTrue(flags, k, l - 1);
    }
  }

  /** A flag that stays once it is up goes up exactly once. */
  lemma {:induction false} GoesUpOnce(flags: seq<bool>) returns (m: nat)
    requires |flags| > 1 && !flags[0] && flags[|flags| - 1]
    requires forall i :: 0 <= i < |flags| - 1 && flags[i] ==> flags[i + 1]
    ensures m < |flags| - 1 && !flags[m] && flags[m + 1]
    ensures forall k :: 0 <= k < |flags| - 1 && !flags[k] && flags[k + 1] ==> k == m
    decreases |flags|
  {
    var n := |flags| - 2;
    if flags[n] {
      m := GoesUpOnce(flags[..n + 1]);
      assert forall k :: 0 <= k <= n ==> flags[..n + 1][k] == flags[k];
      StaysTrue(flags, m + 1, n);
    } else {
      m := n;
      forall k | 0 <= k <= n
        ensures !flags[k]
      {
        if flags[k] {
          StaysTrue(flags, k, n);
        }
      }
    }
  }

  /** Where t is done with its read, from the first to the last state of it. */
  ghost function LeavingFlags(states: seq<State>, t: Thread, i: nat, j: nat): (flags: seq<bool>)
    requires i < j < |states|
    ensures |flags| == j - i && forall k :: 0 <= k < j - i ==> flags[k] == Leaving(At(states[i + 1 + k], t))
  {
    seq(j - i, k requires 0 <= k < j - i => Leaving(At(states[i + 1 + k], t)))
  }

  lemma ReadFlagStep(states: seq<State>, actions: seq<Action>, t: Thread, i: nat, j: nat, k: nat)
    requires Undisturbed(states, actions, t, Task.Read, i, j) && k < j - i - 1
    ensures var flags := LeavingFlags(states, t, i, j);
            && (flags[k] ==> flags[k + 1])
            && (ReadsBy(states[i + 1 + k], actions[i + 1 + k], t) <==> !flags[k] && flags[k + 1])
  {
    ReadGoesOn(states, actions, t, i, j, i + 1 + k);
    ReadActionAt(states, actions, t, i, j, i + 1 + k);
  }

  lemma ReadFlagEnds(states: seq<State>, actions: seq<Action>, t: Thread, i: nat, j: nat)
    requires Undisturbed(states, actions, t, Task.Read, i, j)
    ensures var flags := LeavingFlags(states, t, i, j); |flags| > 1 && !flags[0] && flags[|flags| - 1]
  {
    UndisturbedStart(states, actions, t, Task.Read, i, j);
  }

  /** An undisturbed read reads: exactly one of its steps completes it. */
  lemma ReadsExactlyOnce(states: seq<State>, actions: seq<Action>, t: Thread, i: nat, j: nat) returns (m: nat)
    requires Undisturbed(states, actions, t, Task.Read, i, j)
    ensures i < m < j && ReadsBy(states[m], actions[m], t)
    ensures forall k :: i < k < j && ReadsBy(states[k], actions[k], t) ==> k == m
  {
    var flags := LeavingFlags(states, t, i, j);
    forall k | 0 <= k < |flags| - 1
      ensures flags[k] ==> flags[k + 1]
      ensures ReadsBy(states[i + 1 + k], actions[i + 1 + k], t) <==> !flags[k] && flags[k + 1]
    {
      ReadFlagStep(states, actions, t, i, j, k);
    }
    ReadFlagEnds(states, actions, t, i, j);
    var up := GoesUpOnce(flags);
    m := i + 1 + up;
    forall k | i < k < j && ReadsBy(states[k], actions[k], t)
      ensures k == m
    {
      ReadFlagStep(states, actions, t, i, j, k - i - 1);
    }
  }

  predicate InClear(pc: Pc) {
    match pc
    case LockThread(first) => first == DeleteLog
    case LockFile(first) => first == DeleteLog
    case InBlock(step) => step == DeleteLog || step == DeleteRotated
    case _ => false
  }

  /** As far as t has got with clearing, nothing older than n messages is left. */
  ghost predicate Cleared(s: State, pc: Pc, n: nat) {
    && (pc == InBlock(DeleteRotated) || Leaving(pc) ==> n <= s.logFrom)
    && (Leaving(pc) && s.rotated.Some? ==> n <= s.rotFrom)
  }

  /** Files only lose their beginnings. */
  lemma FilesMoveOn(s: State, s': State, t: Thread)
    requires FilesOk(s) && FileEffect(s, s', t)
    ensures |s.history| <= |s'.history| && s.logFrom <= s'.logFrom
    ensures s'.rotated.Some? ==> (s.rotated.Some? && s'.rotFrom == s.rotFrom) || s'.rotFrom == s.logFrom
  {
  }

  lemma ClearStep(s: State, t: Thread, s': State, n: nat)
    requires Invariant(s) && Next(s, Run(t, Succeeds)) == Some(s') && n <= |s.history|
    requires (InClear(At(s, t)) || Leaving(At(s, t))) && Cleared(s, At(s, t), n)
    ensures InClear(At(s', t)) || Leaving(At(s', t)) || Overlaps(At(s', t))
    ensures Cleared(s', At(s', t), n)
  {
    RunFileEffect(s, t, Succeeds);
    FilesMoveOn(s, s', t);
  }

  lemma ClearWatched(s: State, a: Action, s': State, t: Thread, n: nat)
    requires Invariant(s) && Next(s, a) == Some(s') && Cleared(s, At(s, t), n) && n <= |s.history|
    requires At(s', t) == At(s, t)
    ensures Cleared(s', At(s', t), n)
  {
    if a.Run? {
      RunFileEffect(s, a.t, a.c);
      FilesMoveOn(s, s', a.t);
    }
  }

  lemma HistoryStays(s: State, a: Action, s': State)
    requires Next(s, a) == Some(s')
    ensures |s.history| <= |s'.history|
  {
    if a.Run? {
      RunFileEffect(s, a.t, a.c);
    }
  }

  lemma ClearAction(s: State, a: Action, s': State, t: Thread, n: nat)
    requires Invariant(s) && Leaves(s, a, s', t) && n <= |s.history|
    requires (InClear(At(s, t)) || Leaving(At(s, t))) && Cleared(s, At(s, t), n)
    ensures (InClear(At(s', t)) || Leaving(At(s', t))) && Cleared(s', At(s', t), n) && n <= |s'.history|
  {
    HistoryStays(s, a, s');
    if a.Run? && a.t == t {
      assert a == Run(t, Succeeds);
      ClearStep(s, t, s', n);
    } else {
      OthersLeave(s, a, s', t);
      ClearWatched(s, a, s', t, n);
    }
  }

  lemma ClearActionAt(states: seq<State>, actions: seq<Action>, t: Thread, i: nat, j: nat, k: nat, n: nat)
    requires Undisturbed(states, actions, t, Clear, i, j) && i < k < j && n <= |states[k].history|
    requires (InClear(At(states[k], t)) || Leaving(At(states[k], t))) && Cleared(states[k], At(states[k], t), n)
    ensures InClear(At(states[k + 1], t)) || Leaving(At(states[k + 1], t))
    ensures Cleared(states[k + 1], At(states[k + 1], t), n) && n <= |states[k + 1].history|
  {
    UndisturbedStep(states, actions, t, Clear, i, j, k);
    ClearAction(states[k], actions[k], states[k + 1], t, n);
  }

  lemma {:induction false} ClearProgress(states: seq<State>, actions: seq<Action>, t: Thread, i: nat, j: nat, k: nat)
    requires Undisturbed(states, actions, t, Clear, i, j) && i < k <= j
    ensures InClear(At(states[k], t)) || Leaving(At(states[k], t))
    ensures |states[i].history| <= |states[k].history| && Cleared(states[k], At(states[k], t), |states[i].history|)
    decreases k
  {
    if k == i + 1 {
      UndisturbedStart(states, actions, t, Clear, i, j);
    } else {
      ClearProgress(states, actions, t, i, j, k - 1);
      ClearActionAt(states, actions, t, i, j, k - 1, |states[i].history|);
    }
  }

  /** An undisturbed clear clears: no file holds anything that was appended before it began. */
  lemma NothingSurvivesClear(states: seq<State>, actions: seq<Action>, t: Thread, i: nat, j: nat)
    requires Undisturbed(states, actions, t, Clear, i, j)
    ensures |states[i].history| <= states[j].logFrom
    ensures states[j].rotated.Some? ==> |states[i].history| <= states[j].rotFrom
  {
    ClearProgress(states, actions, t, i, j, j);
  }

  // ---- A message lost from the middle ----

  ghost predicate Reachable(s: State) {
    exists states, actions :: IsRun(states, actions) && states[|actions|] == s
  }

  lemma Go(s: State, a: Action) returns (next: State)
    requires Reachable(s) && Next(s, a).Some?
    ensures Reachable(next) && Next(s, a) == Some(next)
  {
    next := Next(s, a).value;
    var states, actions :| IsRun(states, actions) && states[|actions|] == s;
    var longer, more := states + [next], actions + [a];
    forall k | 0 <= k < |more|
      ensures StepAt(longer, more, k)
    {
      assert k < |actions| ==> StepAt(states, actions, k);
    }
    assert IsRun(longer, more) && longer[|more|] == next;
  }

  /** Nobody is in the middle of anything and no lock is held. */
  ghost predicate Quiet(s: State, t: Thread) {
    At(s, t) == Idle && s.fileLock == None && !s.leaked && t.process !in s.threadLocks
  }

  lemma SaveFirst(t: Thread, m: Message) returns (s: State)
    ensures Reachable(s) && Quiet(s, t)
    ensures s.log == Some([m]) && s.rotated == None && s.history == [m]
  {
    s := START;
    var actions: seq<Action> := [];
    assert IsRun([START], actions) && [START][|actions|] == START;
    s := Go(s, Begin(t, Save(m)));
    s := Go(s, Run(t, Succeeds));
    s := Go(s, Run(t, Succeeds));
    assert [] + [m] == [m];
  }

  /** A logger that meets a long file, and nobody else, gets as far as the rename. */
  lemma TakeBothLocks(before: State, t: Thread, m: Message) returns (s: State)
    requires Reachable(before) && Quiet(before, t) && TooLong(before)
    ensures Reachable(s) && At(s, t) == Saving(m, Rename)
    ensures s.fileLock == Some(t.process) && !s.leaked && t.process in s.threadLocks && s.threadLocks[t.process] == t
    ensures s.log == before.log && s.rotated == before.rotated && s.history == before.history
  {
    s := Go(before, Begin(t, Save(m)));
    s := Go(s, Run(t, Succeeds));
    s := Go(s, Run(t, Succeeds));
    s := Go(s, Run(t, Succeeds));
    s := Go(s, Run(t, Succeeds));
    s := Go(s, Run(t, Succeeds));
  }

  lemma RotateUnderLocks(before: State, t: Thread, m: Message) returns (s: State)
    requires Reachable(before) && Quiet(before, t) && before.log.Some? && TooLong(before)
    ensures Reachable(s) && At(s, t) == Saving(m, ReleaseFile)
    ensures s.fileLock == Some(t.process) && !s.leaked && t.process in s.threadLocks && s.threadLocks[t.process] == t
    ensures s.log == None && s.rotated == before.log && s.history == before.history
  {
    s := TakeBothLocks(before, t, m);
    s := Go(s, Run(t, Succeeds));
  }

  lemma SaveRotating(before: State, t: Thread, m: Message) returns (s: State)
    requires Reachable(before) && Quiet(before, t) && before.log.Some? && TooLong(before)
    ensures Reachable(s) && Quiet(s, t)
    ensures s.log == Some([m]) && s.rotated == before.log && s.history == before.history + [m]
  {
    s := RotateUnderLocks(before, t, m);
    s := Go(s, Run(t, Succeeds));
    s := Go(s, Run(t, Succeeds));
    s := Go(s, Run(t, Succeeds));
    assert [] + [m] == [m];
  }

  /** A clear whose second deletion fails. */
  lemma ClearHalf(before: State, t: Thread) returns (s: State)
    requires Reachable(before) && Quiet(before, t)
    ensures Reachable(s) && Quiet(s, t)
    ensures s.log == None && s.rotated == before.rotated && s.history == before.history
  {
    s := Go(before, Begin(t, Clear));
    s := Go(s, Run(t, Succeeds));
    s := Go(s, Run(t, Succeeds));
    s := Go(s, Run(t, Succeeds));
    s := Go(s, Run(t, Fails));
    s := Go(s, Run(t, Succeeds));
    s := Go(s, Run(t, Succeeds));
  }

  /**
   After m1 has been rotated away, a clear that deletes the log with m2 but not the rotated
   file is followed by a complete read of m1 alone, not a suffix of what was appended.
   */
  lemma LostMessage(t: Thread, m1: Message, m2: Message) returns (s: State)
    requires m1 != m2 && m1.size > 1024 * 1024
    ensures Reachable(s) && s.history == [m1, m2] && Reads(s, Run(t, Succeeds), [m1])
    ensures forall k :: 0 <= k <= |s.history| ==> s.history[k..] != [m1]
  {
    s := SaveFirst(t, m1);
    assert [m1][..0] == [] && Size([m1]) == m1.size;
    s := SaveRotating(s, t, m2);
    s := ClearHalf(s, t);
    s := Go(s, Begin(t, Read));
    s := Go(s, Run(t, Succeeds));
    s := Go(s, Run(t, Succeeds));
    s := Go(s, Run(t, Succeeds));
    s := Go(s, Run(t, Succeeds));
    assert s.history[1..] == [m2];
  }

  // ---- A message that is never written ----

  /** Rotating works, but the release fails: the lock stays with the process, the message is written. */
  lemma SaveLeaking(before: State, t: Thread, m: Message) returns (s: State)
    requires Reachable(before) && Quiet(before, t) && before.log.Some? && TooLong(before)
    ensures Reachable(s) && At(s, t) == Idle && t.process !in s.threadLocks
    ensures s.leaked && s.fileLock == Some(t.process) && s.log == Some([m]) && s.history == before.history + [m]
  {
    s := RotateUnderLocks(before, t, m);
    s := Go(s, Run(t, Fails));
    s := Go(s, Run(t, Succeeds));
    s := Go(s, Run(t, Succeeds));
    assert [] + [m] == [m];
  }

  /** The next save that finds the file too long ends with the exception, and without its message. */
  lemma LostToOverlap(t: Thread, m1: Message, m2: Message, m3: Message, c: Choice) returns (s: State, s': State)
    requires m1.size > LOG_MAX_FILE_SIZE && m2.size > LOG_MAX_FILE_SIZE && m3 != m1 && m3 != m2
    ensures Reachable(s) && At(s, t) == Saving(m3, Overlapped)
    ensures Next(s, Run(t, c)) == Some(s') && At(s', t) == Idle && s'.history == [m1, m2] && m3 !in s'.history
  {
    s := SaveFirst(t, m1);
    assert [m1][..0] == [] && Size([m1]) == m1.size;
    assert [m2][..0] == [] && Size([m2]) == m2.size;
    s := SaveLeaking(s, t, m2);
    s := MeetLeak(s, t, m3);
    s' := Go(s, Run(t, c));
  }

  lemma MeetLeak(before: State, t: Thread, m: Message) returns (s: State)
    requires Reachable(before) && At(before, t) == Idle && t.process !in before.threadLocks
    requires before.fileLock == Some(t.process) && TooLong(before)
    ensures Reachable(s) && At(s, t) == Saving(m, Overlapped) && s.history == before.history
  {
    s := Go(before, Begin(t, Save(m)));
    s := Go(s, Run(t, Succeeds));
    s := Go(s, Run(t, Succeeds));
    s := Go(s, Run(t, Succeeds));
    s := Go(s, Run(t, Succeeds));
  }

  // ---- A wait that never ends ----

  /** Clearing works, but the release fails: the lock stays with the process of t. */
  lemma ClearLeaking(before: State, t: Thread) returns (s: State)
    requires Reachable(before) && Quiet(before, t)
    ensures Reachable(s) && s.pc == before.pc[t := Idle]
    ensures s.leaked && s.fileLock == Some(t.process) && s.threadLocks.Keys == before.threadLocks.Keys
  {
    s := Go(before, Begin(t, Clear));
    s := Go(s, Run(t, Succeeds));
    s := Go(s, Run(t, Succeeds));
    s := Go(s, Run(t, Succeeds));
    s := Go(s, Run(t, Succeeds));
    s := Go(s, Run(t, Fails));
    s := Go(s, Run(t, Succeeds));
  }

  /** A clear whose release fails, and then a read in another process: it waits, alone, and cannot go on. */
  lemma ReaderHangs(t: Thread, u: Thread) returns (s: State)
    requires t.process != u.process
    ensures Reachable(s) && At(s, u) == LockFile(CheckRotated) && forall v :: v != u ==> At(s, v) == Idle
    ensures forall v :: !CanGoOn(s, v)
  {
    s := START;
    var actions: seq<Action> := [];
    assert IsRun([START], actions) && [START][|actions|] == START;
    s := ClearLeaking(s, t);
    s := Go(s, Begin(u, Read));
    s := Go(s, Run(u, Succeeds));
  }
}
