/** provisioning-state.js: modes, phases and revisions of a node, and the events that change them. */
module Provisioning {
  import opened Outcomes

  datatype Mode = Active | Paused | Quarantined

  datatype Phase = Idle | Validating | Applying | Removing | Reporting | Failed

  datatype QuarantineRecord = QuarantineRecord(reason: string, commandId: Option<string>, at: string)

  datatype ErrorRecord = ErrorRecord(code: string, message: string, at: string)

  datatype NodeState = NodeState(
    nodeId: string,
    mode: Mode,
    phase: Phase,
    revision: int,
    desiredRevision: Option<string>,
    appliedRevision: Option<string>,
    pausedAt: Option<string>,
    updatedAt: string,
    quarantine: Option<QuarantineRecord>,
    lastError: Option<ErrorRecord>
  )

  /** An optional field of a JSON payload: it may be missing, null, or hold text. */
  datatype JsText = Undefined | Null | Text(value: string)

  datatype Event =
    | ValidateStarted
    | ValidateSucceeded(desired: Option<string>)
    | ApplyStarted(desired: Option<string>)
    | ApplySucceeded(applied: Option<string>)
    | ApplyFailed(code: Option<string>, message: Option<string>)
    | RemoveStarted
    | RemoveSucceeded
    | ReportStarted
    | ReportSucceeded
    | PauseRequested(mode: JsText)
    | ResumeRequested(clearQuarantine: Option<bool>)
    | QuarantineRequested(reason: Option<string>, commandId: Option<string>)
    | Unsupported(name: string)

  function Fresh(nodeId: string, at: string): NodeState {
    NodeState(nodeId, Active, Idle, 0, None, None, None, at, None, None)
  }

  /** transitionProvisioningState: the new state, or the exception that is thrown. */
  function Transition(s: NodeState, event: Event, at: string): Result<NodeState> {
    match event
    case ValidateStarted =>
      if s.phase != Idle then Failure("Cannot apply event in this phase")
      else Success(s.(phase := Validating, updatedAt := at))
    case ValidateSucceeded(desired) =>
      if s.phase != Validating then Failure("Validation can only succeed from validating phase")
      else Success(s.(phase := Idle, desiredRevision := desired.OrElse(s.desiredRevision),
                      revision := s.revision + 1, updatedAt := at))
    case ApplyStarted(desired) =>
      if s.mode != Active then Failure("Cannot apply event in this mode")
      else if s.phase != Idle then Failure("Cannot apply event in this phase")
      else Success(s.(phase := Applying, desiredRevision := desired.OrElse(s.desiredRevision), updatedAt := at))
    case ApplySucceeded(applied) =>
      if s.phase != Applying then Failure("Apply can only succeed from applying phase")
      else Success(s.(phase := Idle, appliedRevision := applied.OrElse(s.desiredRevision),
                      revision := s.revision + 1, lastError := None, updatedAt := at))
    case ApplyFailed(code, message) =>
      if s.phase != Applying then Failure("Apply can only fail from applying phase")
      else Success(s.(phase := Failed, updatedAt := at,
                      lastError := Some(ErrorRecord(code.GetOr("apply_failed"),
                                                    message.GetOr("Provisioning apply failed"), at))))
    case RemoveStarted =>
      if s.mode != Active then Failure("Cannot apply event in this mode")
      else if s.phase != Idle then Failure("Cannot apply event in this phase")
      else Success(s.(phase := Removing, updatedAt := at))
    case RemoveSucceeded =>
      if s.phase != Removing then Failure("Remove can only succeed from removing phase")
      else Success(s.(phase := Idle, appliedRevision := None, revision := s.revision + 1,
                      lastError := None, updatedAt := at))
    case ReportStarted =>
      if s.phase != Idle then Failure("Cannot apply event in this phase")
      else Success(s.(phase := Reporting, updatedAt := at))
    case ReportSucceeded =>
      if s.phase != Reporting then Failure("Report can only succeed from reporting phase")
      else Success(s.(phase := Idle, updatedAt := at))
    case PauseRequested(mode) =>
      if s.mode == Quarantined then Failure("Cannot pause a quarantined node")
      else if s.phase != Idle then Failure("Cannot apply event in this phase")
      else if mode != Undefined && mode != Text("paused") then Failure("Pause mode must be paused")
      else Success(s.(mode := Paused, pausedAt := Some(at), revision := s.revision + 1, updatedAt := at))
    case ResumeRequested(clearQuarantine) =>
      if s.mode == Quarantined && clearQuarantine != Some(true) then
        Failure("Resuming a quarantined node requires clearQuarantine=true")
      else if s.phase != Idle then Failure("Cannot apply event in this phase")
      else Success(s.(mode := Active, pausedAt := None, quarantine := None,
                      revision := s.revision + 1, updatedAt := at))
    case QuarantineRequested(reason, commandId) =>
      Success(s.(mode := Quarantined, phase := Idle, pausedAt := None,
                 quarantine := Some(QuarantineRecord(reason.GetOr("manual"), commandId, at)),
                 revision := s.revision + 1, updatedAt := at))
    case Unsupported(_) => Failure("Unsupported provisioning event")
  }

  // ---- The machine field by field ----

  /** The phase that an event needs, if it needs one. */
  function NeededPhase(event: Event): Option<Phase> {
    match event
    case ValidateStarted | ApplyStarted(_) | RemoveStarted | ReportStarted | PauseRequested(_) | ResumeRequested(_) =>
      Some(Idle)
    case ValidateSucceeded(_) => Some(Validating)
    case ApplySucceeded(_) | ApplyFailed(_, _) => Some(Applying)
    case RemoveSucceeded => Some(Removing)
    case ReportSucceeded => Some(Reporting)
    case QuarantineRequested(_, _) | Unsupported(_) => None
  }

  /** Exactly these events are accepted: in the phase they need, and as far as mode and payload allow. */
  lemma AcceptedExactly(s: NodeState, event: Event, at: string)
    ensures Transition(s, event, at).Success? <==>
              && (NeededPhase(event).Some? ==> s.phase == NeededPhase(event).value)
              && (event.ApplyStarted? || event.RemoveStarted? ==> s.mode == Active)
              && (event.PauseRequested? ==> s.mode != Quarantined && event.mode in {Undefined, Text("paused")})
              && (event.ResumeRequested? ==> s.mode == Quarantined ==> event.clearQuarantine == Some(true))
              && !event.Unsupported?
  {
  }

  /** What an accepted event makes of mode, phase, revision and times. */
  lemma ProgressOfEvent(s: NodeState, event: Event, at: string)
    requires Transition(s, event, at).Success?
    ensures var s' := Transition(s, event, at).value;
            && s'.mode == (if event.PauseRequested? then Paused else if event.ResumeRequested? then Active
                           else if event.QuarantineRequested? then Quarantined else s.mode)
            && s'.phase == (if event.ValidateStarted? then Validating else if event.ApplyStarted? then Applying
                            else if event.RemoveStarted? then Removing else if event.ReportStarted? then Reporting
                            else if event.ApplyFailed? then Failed else Idle)
            && s'.revision == s.revision + (if event.ValidateStarted? || event.ApplyStarted? || event.RemoveStarted?
                                               || event.ReportStarted? || event.ReportSucceeded? || event.ApplyFailed?
                                            then 0 else 1)
            && s'.updatedAt == at && s'.nodeId == s.nodeId
  {
  }

  /** Which records an accepted event writes, and with what; all others stay. */
  lemma RecordsOfEvent(s: NodeState, event: Event, at: string)
    requires Transition(s, event, at).Success?
    ensures var s' := Transition(s, event, at).value;
            && (event.PauseRequested? ==> s'.pausedAt == Some(at))
            && (event.ResumeRequested? || event.QuarantineRequested? ==> s'.pausedAt == None)
            && (s'.pausedAt != s.pausedAt ==>
                  event.PauseRequested? || event.ResumeRequested? || event.QuarantineRequested?)
            && (event.QuarantineRequested? ==>
                  s'.quarantine == Some(QuarantineRecord(event.reason.GetOr("manual"), event.commandId, at)))
            && (event.ResumeRequested? ==> s'.quarantine == None)
            && (s'.quarantine != s.quarantine ==> event.ResumeRequested? || event.QuarantineRequested?)
            && (event.ApplyFailed? ==>
                  s'.lastError == Some(ErrorRecord(event.code.GetOr("apply_failed"),
                                                   event.message.GetOr("Provisioning apply failed"), at)))
            && (event.ApplySucceeded? || event.RemoveSucceeded? ==> s'.lastError == None)
            && (s'.lastError != s.lastError ==>
                  event.ApplyFailed? || event.ApplySucceeded? || event.RemoveSucceeded?)
  {
  }

  /** Which revisions an accepted event records; a revision that is not given is the desired one, or stays. */
  lemma RevisionsOfEvent(s: NodeState, event: Event, at: string)
    requires Transition(s, event, at).Success?
    ensures var s' := Transition(s, event, at).value;
            && (event.ValidateSucceeded? || event.ApplyStarted? ==>
                  s'.desiredRevision == if event.desired.Some? then event.desired else s.desiredRevision)
            && (s'.desiredRevision != s.desiredRevision ==> event.ValidateSucceeded? || event.ApplyStarted?)
            && (event.ApplySucceeded? ==>
                  s'.appliedRevision == if event.applied.Some? then event.applied else s.desiredRevision)
            && (event.RemoveSucceeded? ==> s'.appliedRevision == None)
            && (s'.appliedRevision != s.appliedRevision ==> event.ApplySucceeded? || event.RemoveSucceeded?)
  {
  }

  /** How the parts of a state hang together. */
  ghost predicate Consistent(s: NodeState) {
    && (s.quarantine.Some? <==> s.mode == Quarantined)
    && (s.pausedAt.Some? <==> s.mode == Paused)
    && (s.phase == Applying || s.phase == Removing || s.phase == Failed ==> s.mode == Active)
    && (s.phase == Failed ==> s.lastError.Some?)
  }

  /** An event that throws leaves the caller with the state it had. */
  function After(s: NodeState, events: seq<(Event, string)>): NodeState
    decreases |events|
  {
    if events == [] then s
    else
      var n := |events| - 1;
      var before := After(s, events[..n]);
      var r := Transition(before, events[n].0, events[n].1);
      if r.Success? then r.value else before
  }

  /** One event: consistency is kept and the revision is raised by at most one. */
  lemma TransitionKeepsConsistent(s: NodeState, event: Event, at: string)
    requires Consistent(s) && Transition(s, event, at).Success?
    ensures var s' := Transition(s, event, at).value;
            Consistent(s') && s.revision <= s'.revision <= s.revision + 1 && s'.nodeId == s.nodeId
  {
    match event
    case ValidateStarted =>
    case ValidateSucceeded(_) =>
    case ApplyStarted(_) =>
    case ApplySucceeded(_) =>
    case ApplyFailed(_, _) =>
    case RemoveStarted =>
    case RemoveSucceeded =>
    case ReportStarted =>
    case ReportSucceeded =>
    case PauseRequested(_) =>
    case ResumeRequested(_) =>
    case QuarantineRequested(_, _) =>
  }

  lemma {:induction false} EventsKeepConsistent(s: NodeState, events: seq<(Event, string)>)
    requires Consistent(s)
    ensures Consistent(After(s, events))
    ensures s.revision <= After(s, events).revision <= s.revision + |events|
    decreases |events|
  {
    if events != [] {
      var n := |events| - 1;
      var before := After(s, events[..n]);
      EventsKeepConsistent(s, events[..n]);
      if Transition(before, events[n].0, events[n].1).Success? {
        TransitionKeepsConsistent(before, events[n].0, events[n].1);
      }
    }
  }

  lemma {:induction false} AfterConcat(s: NodeState, first: seq<(Event, string)>, rest: seq<(Event, string)>)
    ensures After(s, first + rest) == After(After(s, first), rest)
    decreases |rest|
  {
    if rest == [] {
      assert first + rest == first;
    } else {
      var n := |rest| - 1;
      assert (first + rest)[..|first + rest| - 1] == first + rest[..n];
      AfterConcat(s, first, rest[..n]);
    }
  }

  /** Every state reachable from a fresh one is consistent. */
  lemma ReachableIsConsistent(nodeId: string, at: string, events: seq<(Event, string)>)
    ensures Consistent(After(Fresh(nodeId, at), events))
    ensures 0 <= After(Fresh(nodeId, at), events).revision <= |events|
  {
    EventsKeepConsistent(Fresh(nodeId, at), events);
  }

  /** Revisions never go down, whatever follows. */
  lemma RevisionNeverDrops(s: NodeState, first: seq<(Event, string)>, rest: seq<(Event, string)>)
    requires Consistent(s)
    ensures After(s, first).revision <= After(s, first + rest).revision
  {
    EventsKeepConsistent(s, first);
    AfterConcat(s, first, rest);
    EventsKeepConsistent(After(s, first), rest);
  }

  /** A failed apply is sticky: only a quarantine ends it, whatever else is tried. */
  lemma {:induction false} FailureIsSticky(s: NodeState, events: seq<(Event, string)>)
    requires s.phase == Failed
    requires forall i :: 0 <= i < |events| ==> !events[i].0.QuarantineRequested?
    ensures After(s, events) == s
    decreases |events|
  {
    if events != [] {
      var n := |events| - 1;
      FailureIsSticky(s, events[..n]);
      OnlyQuarantineLeavesFailure(s, events[n].0, events[n].1);
    }
  }

  lemma OnlyQuarantineLeavesFailure(s: NodeState, event: Event, at: string)
    requires s.phase == Failed
    ensures Transition(s, event, at).Success? <==> event.QuarantineRequested?
    ensures event.QuarantineRequested? ==>
              Transition(s, event, at).value.phase == Idle && Transition(s, event, at).value.mode == Quarantined
  {
  }

  /** The failed phase is reached from a fresh state by two events: an apply that starts and fails. */
  lemma FailureIsReachable(nodeId: string, at: string)
    ensures After(Fresh(nodeId, at), [(ApplyStarted(None), at), (ApplyFailed(None, None), at)]).phase == Failed
  {
    var s, events := Fresh(nodeId, at), [(ApplyStarted(None), at), (ApplyFailed(None, None), at)];
    assert events[..1] == [events[0]] && [events[0]][..0] == [];
    assert After(s, []) == s;
  }
}
