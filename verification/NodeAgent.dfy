/**
 runtime-runner.js: one control-plane command at a time is turned into state transitions
 and a runtime action; the new state is stored only if the action did not fail.

 What payload fields contain beyond what is modelled here, and what runtime actions do to
 the machine, enters as nondeterministic probes and outcomes.
 */
module NodeAgents {
  import opened Outcomes
  import opened Provisioning

  datatype CommandType =
    | DesiredStateValidate | DesiredStateApply | FirewallPlanApply | OutboundApply | OutboundRemove
    | NodePause | NodeResume | NodeQuarantine | NodeRestart | NodeConnectionsDrop | NodeTrafficReset
    | CapabilitiesReport | ConflictScan

  /** What looking for a plan in a payload gives: none, a plan, or an exception. */
  datatype Probe = NoPlan | Plan | PlanThrows

  /** The payload fields that decide what happens; backends are the plan builders in their order. */
  datatype Payload = Payload(
    desiredRevision: Option<string>,
    status: JsText,
    clearQuarantine: Option<bool>,
    reason: string,
    nodePolicy: Probe,
    xray: Probe,
    backends: seq<Probe>,
    liveListener: Probe,
    connectionDrop: Probe,
    adapter: string
  )

  /** A command from the control plane; Malformed ones do not make it into an envelope. */
  datatype Command = Malformed | Command(id: string, kind: CommandType, payload: Payload)

  datatype RuntimeAction =
    | NodePolicyApply | XrayApply | BackendApply(index: nat) | TcpDiagnosticStart
    | TcpDiagnosticStop | Ikev2Stop | XrayStop | NaiveStop
    | Restart | TrafficReset | ConnectionsDrop

  datatype Status = Succeeded | FailedStatus | Skipped

  datatype CommandResult = CommandResult(
    status: Status, state: Option<NodeState>, action: Option<RuntimeAction>, errorCode: Option<string>
  )

  const FAILED := CommandResult(FailedStatus, None, None, Some("command_apply_failed"))

  predicate IsMutating(kind: CommandType) {
    kind in {DesiredStateApply, FirewallPlanApply, NodeConnectionsDrop, NodeRestart, NodeTrafficReset,
             OutboundApply, OutboundRemove}
  }

  predicate IsDiagnostic(kind: CommandType) {
    kind in {DesiredStateValidate, CapabilitiesReport, ConflictScan}
  }

  predicate IsApply(kind: CommandType) {
    kind == DesiredStateApply || kind == FirewallPlanApply || kind == OutboundApply
  }

  /** commandAllowanceForState. */
  predicate Allowed(kind: CommandType, mode: Mode) {
    match mode
    case Active => true
    case Paused => kind == NodeResume || kind == NodeQuarantine || IsDiagnostic(kind)
    case Quarantined => kind == NodeResume || IsDiagnostic(kind)
  }

  /** The first backend that finds a plan; later ones are not asked. */
  function FirstBackend(backends: seq<Probe>, i: nat): Result<Option<RuntimeAction>>
    requires i <= |backends|
    decreases |backends| - i
  {
    if i == |backends| then Success(None)
    else
      match backends[i]
      case NoPlan => FirstBackend(backends, i + 1)
      case Plan => Success(Some(BackendApply(i)))
      case PlanThrows => Failure("invalid plan")
  }

  /** Which runtime action an apply command asks for; having none is an error. */
  function ChooseAction(kind: CommandType, p: Payload): Result<RuntimeAction> {
    if p.nodePolicy == PlanThrows || p.xray == PlanThrows then Failure("invalid plan")
    else
      var policy := if p.nodePolicy == Plan && kind == FirewallPlanApply then Some(NodePolicyApply) else None;
      var first := if p.xray == Plan then Some(XrayApply) else policy;
      var found := if first.Some? then Success(first) else FirstBackend(p.backends, 0);
      var listener := if kind == OutboundApply then p.liveListener else NoPlan;
      if found.Failure? then Failure(found.error)
      else if listener == PlanThrows then Failure("invalid plan")
      else if found.value.Some? then Success(found.value.value)
      else if listener == Plan then Success(TcpDiagnosticStart)
      else Failure("no live runtime backend on this node-agent build")
  }

  function TransitionApply(s: NodeState, p: Payload, startedAt: string, finishedAt: string): Result<NodeState> {
    var started := Transition(s, ApplyStarted(p.desiredRevision.OrElse(s.desiredRevision)), startedAt);
    if started.Failure? then started
    else Transition(started.value, ApplySucceeded(p.desiredRevision.OrElse(started.value.desiredRevision)), finishedAt)
  }

  function TransitionValidate(s: NodeState, p: Payload, startedAt: string, finishedAt: string): Result<NodeState> {
    var started := Transition(s, ValidateStarted, startedAt);
    if started.Failure? then started
    else Transition(started.value, ValidateSucceeded(p.desiredRevision.OrElse(s.desiredRevision)), finishedAt)
  }

  function TransitionReport(s: NodeState, startedAt: string, finishedAt: string): Result<NodeState> {
    var started := Transition(s, ReportStarted, startedAt);
    if started.Failure? then started else Transition(started.value, ReportSucceeded, finishedAt)
  }

  function TransitionRemove(s: NodeState, startedAt: string, finishedAt: string): Result<NodeState> {
    var started := Transition(s, RemoveStarted, startedAt);
    if started.Failure? then started else Transition(started.value, RemoveSucceeded, finishedAt)
  }

  predicate StartsWith(s: string, prefix: string) { |prefix| <= |s| && s[..|prefix|] == prefix }

  /** What an outbound is stopped by depends on its adapter; "" stands for none. */
  function StopAction(adapter: string): RuntimeAction {
    if StartsWith(adapter, "ikev2") then Ikev2Stop
    else if adapter == "xray" then XrayStop
    else if adapter == "naiveproxy" then NaiveStop
    else TcpDiagnosticStop
  }

  function Settle(r: Result<NodeState>, action: Option<RuntimeAction>): CommandResult {
    if r.Success? then CommandResult(Succeeded, Some(r.value), action, None) else FAILED
  }

  /** applyNodeCommand: the state transition and the runtime action of one command. */
  function ApplyNodeCommand(command: Command, s: NodeState, startedAt: string, finishedAt: string): CommandResult {
    if command.Malformed? then
      CommandResult(FailedStatus, None, None, Some("invalid_command_envelope"))
    else if !Allowed(command.kind, s.mode) then
      CommandResult(Skipped, Some(s), None, Some("command_not_allowed"))
    else
      var p := command.payload;
      match command.kind
      case NodePause => Settle(Transition(s, PauseRequested(p.status), finishedAt), None)
      case NodeResume => Settle(Transition(s, ResumeRequested(p.clearQuarantine), finishedAt), None)
      case NodeQuarantine =>
        Settle(Transition(s, QuarantineRequested(Some(p.reason), Some(command.id)), finishedAt), None)
      case NodeRestart => Settle(Success(s), Some(Restart))
      case NodeConnectionsDrop =>
        if p.connectionDrop == PlanThrows then FAILED else Settle(Success(s), Some(ConnectionsDrop))
      case NodeTrafficReset => Settle(Success(s), Some(TrafficReset))
      case DesiredStateValidate => Settle(TransitionValidate(s, p, startedAt, finishedAt), None)
      case DesiredStateApply | FirewallPlanApply | OutboundApply =>
        (match ChooseAction(command.kind, p)
         case Failure(_) => FAILED
         case Success(action) => Settle(TransitionApply(s, p, startedAt, finishedAt), Some(action)))
      case OutboundRemove => Settle(TransitionRemove(s, startedAt, finishedAt), Some(StopAction(p.adapter)))
      case CapabilitiesReport => Settle(TransitionReport(s, startedAt, finishedAt), None)
      case ConflictScan => Settle(Success(s), None)
  }

  /** Whether the main step of a runtime action works, and the node policy that may follow it. */
  datatype Effects = Effects(main: bool, policy: bool)

  /** A backend that has been configured gets the node policy of the same payload afterwards. */
  predicate PolicyFollows(action: RuntimeAction, command: Command) {
    command.Command? && (action.XrayApply? || action.BackendApply?) && command.payload.nodePolicy == Plan
  }

  predicate Works(action: RuntimeAction, command: Command, works: Effects) {
    works.main && (PolicyFollows(action, command) ==> works.policy)
  }

  /** applyRuntimeEffects: carrying out the action either works or turns the result into a failure. */
  function ApplyRuntimeEffects(r: CommandResult, command: Command, works: Effects): CommandResult {
    if r.status != Succeeded || r.action.None? || Works(r.action.value, command, works) then r
    else CommandResult(FailedStatus, None, None, Some("live_listener_failed"))
  }

  /** One pass of the agent loop as its environment decides it. */
  datatype Pass = Pass(command: Option<Command>, works: Effects, startedAt: string, finishedAt: string)

  /** What the command of a pass comes to before its runtime effect. */
  function Planned(s: NodeState, pass: Pass): CommandResult
    requires pass.command.Some?
  {
    ApplyNodeCommand(pass.command.value, s, pass.startedAt, pass.finishedAt)
  }

  /** The result of the command of a pass, after its runtime effect. */
  function Outcome(s: NodeState, pass: Pass): CommandResult
    requires pass.command.Some?
  {
    ApplyRuntimeEffects(Planned(s, pass), pass.command.value, pass.works)
  }

  /** The stored state after a pass. */
  function NextStored(s: NodeState, pass: Pass): NodeState {
    if pass.command.None? then s else Outcome(s, pass).state.GetOr(s)
  }

  class NodeAgent {
    const nodeId: string
    /** The provisioning state file; absent until a command has been carried out. */
    var stateFile: Option<NodeState>

    constructor (nodeId: string)
      ensures this.nodeId == nodeId && stateFile == None
    {
      this.nodeId, stateFile := nodeId, None;
    }

    function Current(at: string): NodeState
      reads this
    {
      stateFile.GetOr(Fresh(nodeId, at))
    }

    /** runNodeAgentOnce: load, apply, carry out, and store what is worth storing. */
    method RunOnce(pass: Pass, now: string) returns (latestState: NodeState)
      modifies this
      ensures latestState == NextStored(old(Current(now)), pass)
      ensures stateFile == if pass.command.Some? && Outcome(old(Current(now)), pass).state.Some?
                           then Some(latestState) else old(stateFile)
    {
      var currentState := Current(now);
      latestState := currentState;
      if pass.command.Some? {
        var commandResult := ApplyNodeCommand(pass.command.value, currentState, pass.startedAt, pass.finishedAt);
        commandResult := ApplyRuntimeEffects(commandResult, pass.command.value, pass.works);
        if commandResult.state.Some? {
          latestState := commandResult.state.value;
          stateFile := Some(latestState);
        }
      }
    }
  }

  /** All that an action consists of works. */
  ghost predicate WorksAsAWhole(action: Option<RuntimeAction>, p: Payload, works: Effects) {
    match action
    case None => true
    case Some(XrayApply) | Some(BackendApply(_)) => works.main && (p.nodePolicy == Plan ==> works.policy)
    case Some(_) => works.main
  }

  /** A pass succeeds exactly if its command does and its effect works, node policy included where one follows. */
  lemma OutcomeExactly(s: NodeState, pass: Pass)
    requires pass.command.Some? && pass.command.value.Command?
    ensures var r, before := Outcome(s, pass), Planned(s, pass);
            if before.status != Succeeded || WorksAsAWhole(before.action, pass.command.value.payload, pass.works)
            then r == before
            else r.status == FailedStatus && r.state == None && r.action == None
  {
  }

  // ---- One pass ----

  /** What is stored between passes. */
  ghost predicate Settled(s: NodeState) {
    Consistent(s) && s.phase == Idle
  }

  /** What may become of a settled state: again a settled one, at most one revision further. */
  ghost predicate Follows(s: NodeState, s': NodeState) {
    Settled(s') && s.revision <= s'.revision <= s.revision + 1 && s'.nodeId == s.nodeId
  }

  ghost predicate GoodResult(s: NodeState, r: Result<NodeState>) { r.Success? ==> Follows(s, r.value) }

  lemma ModeEventsKeepSettled(s: NodeState, event: Event, at: string)
    requires Settled(s) && (event.PauseRequested? || event.ResumeRequested? || event.QuarantineRequested?)
    ensures GoodResult(s, Transition(s, event, at))
  {
    if Transition(s, event, at).Success? {
      TransitionKeepsConsistent(s, event, at);
    }
  }

  lemma PairsKeepSettled(s: NodeState, p: Payload, startedAt: string, finishedAt: string)
    requires Settled(s)
    ensures GoodResult(s, TransitionValidate(s, p, startedAt, finishedAt))
    ensures GoodResult(s, TransitionReport(s, startedAt, finishedAt))
    ensures GoodResult(s, TransitionRemove(s, startedAt, finishedAt))
  {
  }

  lemma ApplyKeepsSettled(s: NodeState, p: Payload, startedAt: string, finishedAt: string)
    requires Settled(s)
    ensures GoodResult(s, TransitionApply(s, p, startedAt, finishedAt))
  {
  }

  lemma CommandKeepsSettled(s: NodeState, command: Command, startedAt: string, finishedAt: string)
    requires Settled(s)
    ensures var r := ApplyNodeCommand(command, s, startedAt, finishedAt);
            r.state.Some? ==> Follows(s, r.state.value)
  {
    if command.Command? {
      var p := command.payload;
      match command.kind
      case NodePause => ModeEventsKeepSettled(s, PauseRequested(p.status), finishedAt);
      case NodeResume => ModeEventsKeepSettled(s, ResumeRequested(p.clearQuarantine), finishedAt);
      case NodeQuarantine =>
        ModeEventsKeepSettled(s, QuarantineRequested(Some(p.reason), Some(command.id)), finishedAt);
      case NodeRestart =>
      case NodeConnectionsDrop =>
      case NodeTrafficReset =>
      case DesiredStateValidate => PairsKeepSettled(s, p, startedAt, finishedAt);
      case DesiredStateApply => ApplyKeepsSettled(s, p, startedAt, finishedAt);
      case FirewallPlanApply => ApplyKeepsSettled(s, p, startedAt, finishedAt);
      case OutboundApply => ApplyKeepsSettled(s, p, startedAt, finishedAt);
      case OutboundRemove => PairsKeepSettled(s, p, startedAt, finishedAt);
      case CapabilitiesReport => PairsKeepSettled(s, p, startedAt, finishedAt);
      case ConflictScan =>
    }
  }

  // ---- Which action a command plans ----

  /** Nothing that an apply of that kind has to look at throws before action is found. */
  ghost predicate NothingThrows(kind: CommandType, p: Payload) {
    p.nodePolicy != PlanThrows && p.xray != PlanThrows && (kind == OutboundApply ==> p.liveListener != PlanThrows)
  }

  /** Xray is asked first; then a firewall apply takes its node policy. */
  ghost predicate BackendsAsked(kind: CommandType, p: Payload) {
    p.xray == NoPlan && (kind == FirewallPlanApply ==> p.nodePolicy == NoPlan)
  }

  /** An apply command asks for that action, in terms of what its payload holds. */
  ghost predicate PlansApply(kind: CommandType, p: Payload, action: RuntimeAction) {
    && NothingThrows(kind, p)
    && match action
       case XrayApply => p.xray == Plan
       case NodePolicyApply => p.xray == NoPlan && kind == FirewallPlanApply && p.nodePolicy == Plan
       case BackendApply(k) =>
         BackendsAsked(kind, p)
         && k < |p.backends| && p.backends[k] == Plan && forall j :: 0 <= j < k ==> p.backends[j] == NoPlan
       case TcpDiagnosticStart =>
         BackendsAsked(kind, p)
         && kind == OutboundApply && p.liveListener == Plan
         && forall j :: 0 <= j < |p.backends| ==> p.backends[j] == NoPlan
       case _ => false
  }

  /** What a command that succeeds has planned. */
  ghost predicate Plans(kind: CommandType, p: Payload, action: Option<RuntimeAction>) {
    match kind
    case NodeRestart => action == Some(Restart)
    case NodeTrafficReset => action == Some(TrafficReset)
    case NodeConnectionsDrop => action == Some(ConnectionsDrop)
    case OutboundRemove =>
      (match action
       case Some(Ikev2Stop) => exists rest :: p.adapter == "ikev2" + rest
       case Some(XrayStop) => p.adapter == "xray"
       case Some(NaiveStop) => p.adapter == "naiveproxy"
       case Some(TcpDiagnosticStop) =>
         p.adapter != "xray" && p.adapter != "naiveproxy" && forall rest :: p.adapter != "ikev2" + rest
       case _ => false)
    case DesiredStateApply | FirewallPlanApply | OutboundApply => action.Some? && PlansApply(kind, p, action.value)
    case _ => action == None
  }

  lemma {:induction false} NoBackend(backends: seq<Probe>, i: nat)
    requires i <= |backends| && forall j :: i <= j < |backends| ==> backends[j] == NoPlan
    ensures FirstBackend(backends, i) == Success(None)
    decreases |backends| - i
  {
    if i < |backends| {
      NoBackend(backends, i + 1);
    }
  }

  /** Either no backend has anything to say, or there is a first one that has. */
  lemma {:induction false} FirstToSpeak(backends: seq<Probe>) returns (k: nat)
    ensures k <= |backends| && (k < |backends| ==> backends[k] != NoPlan)
    ensures forall j :: 0 <= j < k ==> backends[j] == NoPlan
    decreases |backends|
  {
    k := 0;
    if backends != [] && backends[0] == NoPlan {
      var rest := FirstToSpeak(backends[1..]);
      k := rest + 1;
      forall j | 0 <= j < k
        ensures backends[j] == NoPlan
      {
        assert j > 0 ==> backends[j] == backends[1..][j - 1];
      }
    }
  }

  lemma ChooseActionExactly(kind: CommandType, p: Payload, action: RuntimeAction)
    requires IsApply(kind)
    ensures ChooseAction(kind, p) == Success(action) <==> PlansApply(kind, p, action)
  {
    var k := FirstToSpeak(p.backends);
    if k < |p.backends| {
      FirstBackendDecides(p.backends, 0, k);
    } else {
      NoBackend(p.backends, 0);
    }
    if action.BackendApply? && action.index < |p.backends| && action.index != k {
      assert action.index < k ==> p.backends[action.index] == NoPlan;
    }
  }

  lemma StopActionExactly(p: Payload, action: RuntimeAction)
    ensures StopAction(p.adapter) == action <==> Plans(OutboundRemove, p, Some(action))
  {
    PrefixExactly(p.adapter, "ikev2");
    assert "ikev2"[0] != "xray"[0] && "ikev2"[0] != "naiveproxy"[0];
    assert StartsWith(p.adapter, "ikev2") ==> p.adapter[0] == "ikev2"[0];
    assert "xray"[0] != "naiveproxy"[0];
  }

  lemma PrefixExactly(s: string, prefix: string)
    ensures StartsWith(s, prefix) <==> exists rest :: s == prefix + rest
  {
    if StartsWith(s, prefix) {
      assert s == prefix + s[|prefix|..];
    }
  }

  lemma ApplyHasAction(kind: CommandType, p: Payload)
    requires IsApply(kind)
    ensures ChooseAction(kind, p).Success? <==> exists action :: PlansApply(kind, p, action)
  {
    if ChooseAction(kind, p).Success? {
      ChooseActionExactly(kind, p, ChooseAction(kind, p).value);
    }
    forall action | PlansApply(kind, p, action)
      ensures ChooseAction(kind, p).Success?
    {
      ChooseActionExactly(kind, p, action);
    }
  }

  /** The mutating commands are exactly those that can plan a runtime action. */
  lemma MutatingExactly(kind: CommandType)
    ensures IsMutating(kind) <==> exists p, action :: Plans(kind, p, Some(action))
  {
    var p := Payload(None, Undefined, None, "", NoPlan, Plan, [], NoPlan, NoPlan, "xray");
    if IsApply(kind) {
      assert PlansApply(kind, p, XrayApply) && Plans(kind, p, Some(XrayApply));
    }
    match kind
    case OutboundRemove => assert Plans(kind, p, Some(XrayStop));
    case NodeRestart => assert Plans(kind, p, Some(Restart));
    case NodeTrafficReset => assert Plans(kind, p, Some(TrafficReset));
    case NodeConnectionsDrop => assert Plans(kind, p, Some(ConnectionsDrop));
    case _ =>
  }

  /** A command that succeeds has planned exactly the action that its kind and payload call for. */
  lemma PlannedExactly(
    s: NodeState, command: Command, startedAt: string, finishedAt: string, action: Option<RuntimeAction>
  )
    requires command.Command? && ApplyNodeCommand(command, s, startedAt, finishedAt).status == Succeeded
    ensures ApplyNodeCommand(command, s, startedAt, finishedAt).action == action
       <==> Plans(command.kind, command.payload, action)
  {
    if action.Some? {
      if IsApply(command.kind) {
        ChooseActionExactly(command.kind, command.payload, action.value);
      }
      if command.kind == OutboundRemove {
        StopActionExactly(command.payload, action.value);
      }
    }
  }

  /** What a command needs in order to succeed on a settled state. */
  ghost predicate Accepts(s: NodeState, command: Command) {
    && command.Command? && Allowed(command.kind, s.mode)
    && match command.kind
       case NodePause => command.payload.status == Undefined || command.payload.status == Text("paused")
       case NodeResume => s.mode == Quarantined ==> command.payload.clearQuarantine == Some(true)
       case NodeConnectionsDrop => command.payload.connectionDrop != PlanThrows
       case DesiredStateApply | FirewallPlanApply | OutboundApply =>
         exists action :: PlansApply(command.kind, command.payload, action)
       case _ => true
  }

  /** From a settled state no composite step gets stuck half-way: commands succeed exactly if accepted. */
  lemma SucceedsExactly(s: NodeState, command: Command, startedAt: string, finishedAt: string)
    requires Settled(s)
    ensures ApplyNodeCommand(command, s, startedAt, finishedAt).status == Succeeded <==> Accepts(s, command)
  {
    if command.Command? {
      var p := command.payload;
      if IsApply(command.kind) {
        ApplyHasAction(command.kind, p);
      }
      match command.kind
      case NodePause => PauseSucceeds(s, p.status, finishedAt);
      case NodeResume => ResumeSucceeds(s, p.clearQuarantine, finishedAt);
      case NodeQuarantine =>
      case NodeRestart =>
      case NodeConnectionsDrop =>
      case NodeTrafficReset =>
      case DesiredStateValidate => PairsSucceed(s, p, startedAt, finishedAt);
      case DesiredStateApply => PairsSucceed(s, p, startedAt, finishedAt);
      case FirewallPlanApply => PairsSucceed(s, p, startedAt, finishedAt);
      case OutboundApply => PairsSucceed(s, p, startedAt, finishedAt);
      case OutboundRemove => PairsSucceed(s, p, startedAt, finishedAt);
      case CapabilitiesReport => PairsSucceed(s, p, startedAt, finishedAt);
      case ConflictScan =>
    }
  }

  ghost predicate KeptOut(kind: CommandType, mode: Mode) {
    match mode
    case Active => false
    case Paused => kind !in {NodeResume, NodeQuarantine, DesiredStateValidate, CapabilitiesReport, ConflictScan}
    case Quarantined => kind !in {NodeResume, DesiredStateValidate, CapabilitiesReport, ConflictScan}
  }

  /** Which commands a mode keeps out, and what comes of them. */
  lemma SkippedExactly(s: NodeState, command: Command, startedAt: string, finishedAt: string)
    ensures var r := ApplyNodeCommand(command, s, startedAt, finishedAt);
            && (r.status == Skipped <==> command.Command? && KeptOut(command.kind, s.mode))
            && (r.status == Skipped ==> r.state == Some(s) && r.action == None)
            && (r.status == FailedStatus ==> r.state == None && r.action == None)
            && r.errorCode == match r.status
                              case Succeeded => None
                              case Skipped => Some("command_not_allowed")
                              case FailedStatus =>
                                Some(if command.Malformed? then "invalid_command_envelope" else "command_apply_failed")
  {
  }

  /** The way in: unless it is quarantined already, a node can always be, and the record says why. */
  lemma QuarantineAlwaysPossible(s: NodeState, id: string, p: Payload, startedAt: string, finishedAt: string)
    requires s.mode != Quarantined
    ensures var r := ApplyNodeCommand(Command(id, NodeQuarantine, p), s, startedAt, finishedAt);
            && r.status == Succeeded && r.state.Some?
            && r.state.value.mode == Quarantined && r.state.value.phase == Idle
            && r.state.value.quarantine == Some(QuarantineRecord(p.reason, Some(id), finishedAt))
  {
  }

  lemma PauseSucceeds(s: NodeState, status: JsText, at: string)
    requires Settled(s)
    ensures Transition(s, PauseRequested(status), at).Success?
       <==> s.mode != Quarantined && (status == Undefined || status == Text("paused"))
  {
  }

  lemma ResumeSucceeds(s: NodeState, clear: Option<bool>, at: string)
    requires Settled(s)
    ensures Transition(s, ResumeRequested(clear), at).Success? <==> (s.mode == Quarantined ==> clear == Some(true))
  {
  }

  lemma PairsSucceed(s: NodeState, p: Payload, startedAt: string, finishedAt: string)
    requires Settled(s)
    ensures TransitionValidate(s, p, startedAt, finishedAt).Success?
    ensures TransitionReport(s, startedAt, finishedAt).Success?
    ensures s.mode == Active ==> TransitionApply(s, p, startedAt, finishedAt).Success?
    ensures s.mode == Active ==> TransitionRemove(s, startedAt, finishedAt).Success?
  {
  }

  function ModeAfter(kind: CommandType, mode: Mode): Mode {
    match kind
    case NodePause => Paused
    case NodeResume => Active
    case NodeQuarantine => Quarantined
    case _ => mode
  }

  predicate RaisesRevision(kind: CommandType) {
    kind in {NodePause, NodeResume, NodeQuarantine, DesiredStateValidate, OutboundRemove} || IsApply(kind)
  }

  /** What a command that succeeded has done to mode, revision and desired revision. */
  ghost predicate Changes(s: NodeState, s': NodeState, kind: CommandType, desired: Option<string>) {
    && s'.mode == ModeAfter(kind, s.mode)
    && s'.revision == s.revision + (if RaisesRevision(kind) then 1 else 0)
    && s'.desiredRevision == if kind == DesiredStateValidate || IsApply(kind) then desired.OrElse(s.desiredRevision)
                             else s.desiredRevision
  }

  /** What it has written into the records, and when; all others stay. */
  ghost predicate Writes(s: NodeState, s': NodeState, command: Command, finishedAt: string)
    requires command.Command?
  {
    && s'.updatedAt == (if RaisesRevision(command.kind) || command.kind == CapabilitiesReport then finishedAt
                        else s.updatedAt)
    && s'.pausedAt == (if command.kind == NodePause then Some(finishedAt)
                       else if command.kind == NodeResume || command.kind == NodeQuarantine then None else s.pausedAt)
    && s'.quarantine == (if command.kind == NodeResume then None
                         else if command.kind == NodeQuarantine then
                           Some(QuarantineRecord(command.payload.reason, Some(command.id), finishedAt))
                         else s.quarantine)
    && s'.lastError == (if IsApply(command.kind) || command.kind == OutboundRemove then None else s.lastError)
  }

  lemma SuccessWrites(s: NodeState, command: Command, startedAt: string, finishedAt: string)
    requires command.Command? && ApplyNodeCommand(command, s, startedAt, finishedAt).status == Succeeded
    ensures var r := ApplyNodeCommand(command, s, startedAt, finishedAt);
            r.state.Some? && Writes(s, r.state.value, command, finishedAt)
  {
    var p := command.payload;
    match command.kind
    case NodePause =>
    case NodeResume =>
    case NodeQuarantine =>
    case NodeRestart =>
    case NodeConnectionsDrop =>
    case NodeTrafficReset =>
    case DesiredStateValidate => PairWrites(s, p, startedAt, finishedAt);
    case DesiredStateApply => ApplyWrites(s, p, startedAt, finishedAt);
    case FirewallPlanApply => ApplyWrites(s, p, startedAt, finishedAt);
    case OutboundApply => ApplyWrites(s, p, startedAt, finishedAt);
    case OutboundRemove => PairWrites(s, p, startedAt, finishedAt);
    case CapabilitiesReport => PairWrites(s, p, startedAt, finishedAt);
    case ConflictScan =>
  }

  ghost predicate SameRecords(s: NodeState, s': NodeState, finishedAt: string) {
    s'.updatedAt == finishedAt && s'.pausedAt == s.pausedAt && s'.quarantine == s.quarantine
  }

  lemma PairWrites(s: NodeState, p: Payload, startedAt: string, finishedAt: string)
    ensures var r := TransitionValidate(s, p, startedAt, finishedAt);
            r.Success? ==> SameRecords(s, r.value, finishedAt) && r.value.lastError == s.lastError
    ensures var r := TransitionReport(s, startedAt, finishedAt);
            r.Success? ==> SameRecords(s, r.value, finishedAt) && r.value.lastError == s.lastError
    ensures var r := TransitionRemove(s, startedAt, finishedAt);
            r.Success? ==> SameRecords(s, r.value, finishedAt) && r.value.lastError == None
  {
  }

  lemma ApplyWrites(s: NodeState, p: Payload, startedAt: string, finishedAt: string)
    ensures var r := TransitionApply(s, p, startedAt, finishedAt);
            r.Success? ==> SameRecords(s, r.value, finishedAt) && r.value.lastError == None
  {
  }

  lemma SuccessChanges(s: NodeState, command: Command, startedAt: string, finishedAt: string)
    requires command.Command? && ApplyNodeCommand(command, s, startedAt, finishedAt).status == Succeeded
    ensures var r := ApplyNodeCommand(command, s, startedAt, finishedAt);
            r.state.Some? && Changes(s, r.state.value, command.kind, command.payload.desiredRevision)
  {
    var p := command.payload;
    match command.kind
    case NodePause => ModeEventChanges(s, NodePause, PauseRequested(p.status), finishedAt);
    case NodeResume => ModeEventChanges(s, NodeResume, ResumeRequested(p.clearQuarantine), finishedAt);
    case NodeQuarantine =>
      ModeEventChanges(s, NodeQuarantine, QuarantineRequested(Some(p.reason), Some(command.id)), finishedAt);
    case NodeRestart =>
    case NodeConnectionsDrop =>
    case NodeTrafficReset =>
    case DesiredStateValidate => PairChanges(s, p, startedAt, finishedAt);
    case DesiredStateApply => ApplyChanges(s, command.kind, p, startedAt, finishedAt);
    case FirewallPlanApply => ApplyChanges(s, command.kind, p, startedAt, finishedAt);
    case OutboundApply => ApplyChanges(s, command.kind, p, startedAt, finishedAt);
    case OutboundRemove => PairChanges(s, p, startedAt, finishedAt);
    case CapabilitiesReport => PairChanges(s, p, startedAt, finishedAt);
    case ConflictScan =>
  }

  lemma ModeEventChanges(s: NodeState, kind: CommandType, event: Event, at: string)
    requires Transition(s, event, at).Success?
    requires (kind == NodePause && event.PauseRequested?) || (kind == NodeResume && event.ResumeRequested?)
             || (kind == NodeQuarantine && event.QuarantineRequested?)
    ensures Changes(s, Transition(s, event, at).value, kind, None)
  {
  }

  ghost predicate PairChange(s: NodeState, r: Result<NodeState>, kind: CommandType, desired: Option<string>) {
    r.Success? ==> Changes(s, r.value, kind, desired)
  }

  lemma PairChanges(s: NodeState, p: Payload, startedAt: string, finishedAt: string)
    ensures PairChange(s, TransitionValidate(s, p, startedAt, finishedAt), DesiredStateValidate, p.desiredRevision)
    ensures PairChange(s, TransitionReport(s, startedAt, finishedAt), CapabilitiesReport, None)
    ensures PairChange(s, TransitionRemove(s, startedAt, finishedAt), OutboundRemove, None)
  {
  }

  lemma ApplyChanges(s: NodeState, kind: CommandType, p: Payload, startedAt: string, finishedAt: string)
    requires IsApply(kind)
    ensures PairChange(s, TransitionApply(s, p, startedAt, finishedAt), kind, p.desiredRevision)
  {
  }

  /** Backends are asked in order: the first plan decides, unless an exception comes before it. */
  lemma {:induction false} FirstBackendDecides(backends: seq<Probe>, i: nat, k: nat)
    requires i <= k < |backends| && backends[k] != NoPlan && forall j :: i <= j < k ==> backends[j] == NoPlan
    ensures backends[k] == Plan ==> FirstBackend(backends, i) == Success(Some(BackendApply(k)))
    ensures backends[k] == PlanThrows ==> FirstBackend(backends, i).Failure?
    decreases k - i
  {
    if i < k {
      FirstBackendDecides(backends, i + 1, k);
    }
  }

  /** Stored states are always idle and consistent, and a pass raises the revision by at most one. */
  lemma PassKeepsSettled(s: NodeState, pass: Pass)
    requires Settled(s)
    ensures Settled(NextStored(s, pass))
    ensures s.revision <= NextStored(s, pass).revision <= s.revision + 1
    ensures NextStored(s, pass).nodeId == s.nodeId
  {
    if pass.command.Some? {
      CommandKeepsSettled(s, pass.command.value, pass.startedAt, pass.finishedAt);
    }
  }

  /** A pass that fails, or is skipped, leaves the stored state exactly as it was. */
  lemma FailureLeavesStateAlone(s: NodeState, pass: Pass)
    requires pass.command.Some? && Outcome(s, pass).status != Succeeded
    ensures NextStored(s, pass) == s
  {
  }

  /** What an apply or a removal makes of the running node. */
  datatype Effect = Applied(revision: Option<string>) | Removed

  function RevisionOf(e: Effect): Option<string> { if e.Applied? then e.revision else None }

  /** The main step of an apply or removal was due, and worked. */
  function Ran(s: NodeState, pass: Pass): Option<Effect> {
    if pass.command.None? || pass.command.value.Malformed? then None
    else
      var command, r := pass.command.value, Planned(s, pass);
      if r.status != Succeeded || r.action.None? || !pass.works.main then None
      else if IsApply(command.kind) then Some(Applied(command.payload.desiredRevision.OrElse(s.desiredRevision)))
      else if command.kind == OutboundRemove then Some(Removed)
      else None
  }

  /** The main step worked, but the node policy that followed it did not. */
  predicate HalfDone(s: NodeState, pass: Pass) {
    Ran(s, pass).Some? && PolicyFollows(Planned(s, pass).action.value, pass.command.value) && !pass.works.policy
  }

  /** Applies and removals that took effect as a whole. */
  function EffectOf(s: NodeState, pass: Pass): Option<Effect> {
    if HalfDone(s, pass) then None else Ran(s, pass)
  }

  /** What a pass does to the applied revision, as told by its effect. */
  ghost predicate RevisionFollows(s: NodeState, s': NodeState, effect: Option<Effect>) {
    match effect
    case None => s'.appliedRevision == s.appliedRevision
    case Some(Applied(revision)) => s'.appliedRevision == s'.desiredRevision == revision && s'.lastError == None
    case Some(Removed) => s'.appliedRevision == None && s'.lastError == None
  }

  lemma ApplyingSetsRevision(s: NodeState, p: Payload, startedAt: string, finishedAt: string)
    ensures var r := TransitionApply(s, p, startedAt, finishedAt);
            r.Success? ==> RevisionFollows(s, r.value, Some(Applied(p.desiredRevision.OrElse(s.desiredRevision))))
  {
  }

  lemma RemovingClearsRevision(s: NodeState, startedAt: string, finishedAt: string)
    ensures var r := TransitionRemove(s, startedAt, finishedAt);
            r.Success? ==> RevisionFollows(s, r.value, Some(Removed))
  {
  }

  /** A command that is neither an apply nor a removal leaves the applied revision alone. */
  lemma OthersKeepRevision(s: NodeState, command: Command, startedAt: string, finishedAt: string)
    requires command.Command? && !IsApply(command.kind) && command.kind != OutboundRemove
    ensures var r := ApplyNodeCommand(command, s, startedAt, finishedAt);
            r.state.Some? ==> RevisionFollows(s, r.state.value, None)
  {
    var p := command.payload;
    match command.kind
    case NodePause => OtherEventsKeepRevision(s, PauseRequested(p.status), finishedAt);
    case NodeResume => OtherEventsKeepRevision(s, ResumeRequested(p.clearQuarantine), finishedAt);
    case NodeQuarantine =>
      OtherEventsKeepRevision(s, QuarantineRequested(Some(p.reason), Some(command.id)), finishedAt);
    case NodeRestart =>
    case NodeConnectionsDrop =>
    case NodeTrafficReset =>
    case DesiredStateValidate => ValidatingKeepsRevision(s, p, startedAt, finishedAt);
    case CapabilitiesReport => ReportingKeepsRevision(s, startedAt, finishedAt);
    case ConflictScan =>
  }

  lemma OtherEventsKeepRevision(s: NodeState, event: Event, at: string)
    requires !event.ApplySucceeded? && !event.RemoveSucceeded?
    ensures var r := Transition(s, event, at);
            r.Success? ==> r.value.appliedRevision == s.appliedRevision
  {
  }

  lemma ValidatingKeepsRevision(s: NodeState, p: Payload, startedAt: string, finishedAt: string)
    ensures var r := TransitionValidate(s, p, startedAt, finishedAt);
            r.Success? ==> r.value.appliedRevision == s.appliedRevision
  {
  }

  lemma ReportingKeepsRevision(s: NodeState, startedAt: string, finishedAt: string)
    ensures var r := TransitionReport(s, startedAt, finishedAt);
            r.Success? ==> r.value.appliedRevision == s.appliedRevision
  {
  }

  /** The applied revision is touched exactly by effects, and says what the effect was. */
  lemma AppliedRevisionFollowsEffects(s: NodeState, pass: Pass)
    ensures RevisionFollows(s, NextStored(s, pass), EffectOf(s, pass))
  {
    if pass.command.Some? && pass.command.value.Command? {
      var command := pass.command.value;
      if IsApply(command.kind) {
        ApplyingSetsRevision(s, command.payload, pass.startedAt, pass.finishedAt);
      } else if command.kind == OutboundRemove {
        RemovingClearsRevision(s, pass.startedAt, pass.finishedAt);
      } else {
        OthersKeepRevision(s, command, pass.startedAt, pass.finishedAt);
      }
    }
  }

  /** In any mode but active every mutating command is skipped. */
  lemma MutatingIsSkipped(s: NodeState, pass: Pass)
    requires s.mode != Active
    requires pass.command.Some? && pass.command.value.Command? && IsMutating(pass.command.value.kind)
    ensures Outcome(s, pass).status == Skipped && Outcome(s, pass).action == None && NextStored(s, pass) == s
  {
  }

  // ---- Runs ----

  /** The stored state after a run of passes. */
  function RunFrom(s: NodeState, passes: seq<Pass>): NodeState
    decreases |passes|
  {
    if passes == [] then s
    else
      var n := |passes| - 1;
      NextStored(RunFrom(s, passes[..n]), passes[n])
  }

  lemma {:induction false} RunIsSettled(s: NodeState, passes: seq<Pass>)
    requires Settled(s)
    ensures Settled(RunFrom(s, passes))
    ensures s.revision <= RunFrom(s, passes).revision <= s.revision + |passes|
    decreases |passes|
  {
    if passes != [] {
      var n := |passes| - 1;
      RunIsSettled(s, passes[..n]);
      PassKeepsSettled(RunFrom(s, passes[..n]), passes[n]);
    }
  }

  /** No agent gets into the failed phase, or into any other that is not idle. */
  lemma AgentNeverFails(nodeId: string, at: string, passes: seq<Pass>)
    ensures RunFrom(Fresh(nodeId, at), passes).phase == Idle
    ensures forall i :: 0 <= i < |passes| && passes[i].command.Some? ==>
              var r := Planned(RunFrom(Fresh(nodeId, at), passes[..i]), passes[i]);
              r.state.Some? ==> r.state.value.phase == Idle
  {
    RunIsSettled(Fresh(nodeId, at), passes);
    forall i | 0 <= i < |passes| && passes[i].command.Some?
      ensures var r := Planned(RunFrom(Fresh(nodeId, at), passes[..i]), passes[i]);
              r.state.Some? ==> r.state.value.phase == Idle
    {
      RunIsSettled(Fresh(nodeId, at), passes[..i]);
      var before, pass := RunFrom(Fresh(nodeId, at), passes[..i]), passes[i];
      CommandKeepsSettled(before, pass.command.value, pass.startedAt, pass.finishedAt);
    }
  }

  /** The last effect of a run, given what was in effect before. */
  function LastEffect(s: NodeState, passes: seq<Pass>): Option<Effect>
    decreases |passes|
  {
    if passes == [] then None
    else
      var n := |passes| - 1;
      EffectOf(RunFrom(s, passes[..n]), passes[n]).OrElse(LastEffect(s, passes[..n]))
  }

  /** After any run the stored appliedRevision is that of the last apply or removal that worked. */
  lemma {:induction false} StoredRevisionIsInEffect(s: NodeState, passes: seq<Pass>)
    ensures RunFrom(s, passes).appliedRevision ==
              match LastEffect(s, passes)
              case None => s.appliedRevision
              case Some(Applied(revision)) => revision
              case Some(Removed) => None
    decreases |passes|
  {
    if passes != [] {
      var n := |passes| - 1;
      StoredRevisionIsInEffect(s, passes[..n]);
      AppliedRevisionFollowsEffects(RunFrom(s, passes[..n]), passes[n]);
    }
  }

  /** The revision whose main step was the last to work: what the node really runs. */
  function Running(s: NodeState, passes: seq<Pass>): Option<string>
    decreases |passes|
  {
    if passes == [] then s.appliedRevision
    else
      var n := |passes| - 1;
      var ran := Ran(RunFrom(s, passes[..n]), passes[n]);
      if ran.Some? then RevisionOf(ran.value) else Running(s, passes[..n])
  }

  /** The last main step that worked, and whether it was left half done. */
  function LastRan(s: NodeState, passes: seq<Pass>): Option<(Effect, bool)>
    decreases |passes|
  {
    if passes == [] then None
    else
      var n := |passes| - 1;
      var before := RunFrom(s, passes[..n]);
      var ran := Ran(before, passes[n]);
      if ran.Some? then Some((ran.value, HalfDone(before, passes[n]))) else LastRan(s, passes[..n])
  }

  /**
   The stored applied revision is what the node runs, unless the last apply that changed the
   node was left half done: then it is still the one before, and the node runs the new one.
   */
  lemma {:induction false} StoredAndRunning(s: NodeState, passes: seq<Pass>)
    ensures Running(s, passes) == match LastRan(s, passes)
                                  case None => s.appliedRevision
                                  case Some((effect, _)) => RevisionOf(effect)
    ensures LastRan(s, passes).None? || !LastRan(s, passes).value.1 ==>
              RunFrom(s, passes).appliedRevision == Running(s, passes)
    decreases |passes|
  {
    if passes != [] {
      var n := |passes| - 1;
      StoredAndRunning(s, passes[..n]);
      AppliedRevisionFollowsEffects(RunFrom(s, passes[..n]), passes[n]);
    }
  }

  /** Pass k was left half done with another revision than the one that is stored. */
  ghost predicate LeavesBehind(s: NodeState, passes: seq<Pass>, k: nat)
    requires k < |passes|
  {
    var before := RunFrom(s, passes[..k]);
    HalfDone(before, passes[k]) && RevisionOf(Ran(before, passes[k]).value) != before.appliedRevision
  }

  /** The main step of pass k is an apply or a removal, and works. */
  ghost predicate RunsMainStep(s: NodeState, passes: seq<Pass>, k: nat)
    requires k < |passes|
  {
    Ran(RunFrom(s, passes[..k]), passes[k]).Some?
  }

  /** Some pass before i leaves the stored revision behind, and no main step has worked since. */
  ghost predicate LeftBehind(s: NodeState, passes: seq<Pass>, i: nat)
    requires i <= |passes|
  {
    exists k :: 0 <= k < i && LeavesBehind(s, passes, k) && forall j :: k < j < i ==> !RunsMainStep(s, passes, j)
  }

  lemma LeftBehindStep(s: NodeState, passes: seq<Pass>, i: nat)
    requires i < |passes|
    ensures LeftBehind(s, passes, i + 1)
       <==> LeavesBehind(s, passes, i) || (LeftBehind(s, passes, i) && !RunsMainStep(s, passes, i))
  {
    if LeftBehind(s, passes, i) && !RunsMainStep(s, passes, i) {
      var k :| 0 <= k < i && LeavesBehind(s, passes, k) && forall j :: k < j < i ==> !RunsMainStep(s, passes, j);
      assert forall j :: k < j < i + 1 ==> j == i || !RunsMainStep(s, passes, j);
    }
  }

  /** One more pass: what is stored and what runs differ if the pass leaves it behind, or did and nothing ran. */
  lemma RevisionsStep(s: NodeState, passes: seq<Pass>, i: nat)
    requires i < |passes|
    ensures RunFrom(s, passes[..i + 1]).appliedRevision != Running(s, passes[..i + 1])
       <==> || LeavesBehind(s, passes, i)
            || (!RunsMainStep(s, passes, i) && RunFrom(s, passes[..i]).appliedRevision != Running(s, passes[..i]))
  {
    assert passes[..i + 1][..i] == passes[..i];
    AppliedRevisionFollowsEffects(RunFrom(s, passes[..i]), passes[i]);
  }

  /**
   At every point of every run: the stored and the running revision differ exactly if some pass
   was left half done with a revision other than the stored one, and no main step has worked since.
   */
  lemma {:induction false} RevisionsDifferExactly(s: NodeState, passes: seq<Pass>, i: nat)
    requires i <= |passes|
    ensures RunFrom(s, passes[..i]).appliedRevision != Running(s, passes[..i]) <==> LeftBehind(s, passes, i)
    decreases i
  {
    if i > 0 {
      RevisionsDifferExactly(s, passes, i - 1);
      LeftBehindStep(s, passes, i - 1);
      RevisionsStep(s, passes, i - 1);
    }
  }

  /** A half-done pass is reported as failed and stored not at all, although the node has changed. */
  lemma HalfDonePass(s: NodeState, passes: seq<Pass>, pass: Pass)
    requires HalfDone(RunFrom(s, passes), pass)
    ensures var before, more := RunFrom(s, passes), passes + [pass];
            && Outcome(before, pass).status == FailedStatus && RunFrom(s, more) == before
            && Running(s, more) == RevisionOf(Ran(before, pass).value)
            && LastRan(s, more) == Some((Ran(before, pass).value, true))
  {
    assert (passes + [pass])[..|passes + [pass]| - 1] == passes;
  }

  /** For instance: an apply of a new revision whose node policy fails. */
  lemma RevisionsDiffer(s: NodeState, id: string, p: Payload, startedAt: string, finishedAt: string)
    requires Settled(s) && s.mode == Active && p.xray == Plan && p.nodePolicy == Plan
    requires p.desiredRevision.Some? && p.desiredRevision != s.appliedRevision
    ensures var pass := Pass(Some(Command(id, DesiredStateApply, p)), Effects(true, false), startedAt, finishedAt);
            RunFrom(s, [pass]).appliedRevision != Running(s, [pass])
  {
    var pass := Pass(Some(Command(id, DesiredStateApply, p)), Effects(true, false), startedAt, finishedAt);
    XrayLeftHalfDone(s, id, p, startedAt, finishedAt);
    assert [] + [pass] == [pass];
    HalfDonePass(s, [], pass);
  }

  lemma XrayLeftHalfDone(s: NodeState, id: string, p: Payload, startedAt: string, finishedAt: string)
    requires Settled(s) && s.mode == Active && p.xray == Plan && p.nodePolicy == Plan && p.desiredRevision.Some?
    ensures var pass := Pass(Some(Command(id, DesiredStateApply, p)), Effects(true, false), startedAt, finishedAt);
            HalfDone(s, pass) && Ran(s, pass) == Some(Applied(p.desiredRevision))
  {
    PairsSucceed(s, p, startedAt, finishedAt);
  }

  predicate ClearsQuarantine(pass: Pass) {
    pass.command.Some? && pass.command.value.Command? && pass.command.value.kind == NodeResume
    && pass.command.value.payload.clearQuarantine == Some(true)
  }

  /**
   Quarantine holds: until a resume says clearQuarantine=true, no run changes the mode, the
   quarantine record or the applied revision, and no pass has a runtime action.
   */
  lemma {:induction false} QuarantineHolds(s: NodeState, passes: seq<Pass>)
    requires s.mode == Quarantined
    requires forall i :: 0 <= i < |passes| ==> !ClearsQuarantine(passes[i])
    ensures var s' := RunFrom(s, passes);
            s'.mode == Quarantined && s'.quarantine == s.quarantine && s'.appliedRevision == s.appliedRevision
    ensures forall i :: 0 <= i < |passes| && passes[i].command.Some? ==>
              Outcome(RunFrom(s, passes[..i]), passes[i]).action == None
    decreases |passes|
  {
    if passes != [] {
      var n := |passes| - 1;
      QuarantineHolds(s, passes[..n]);
      forall i | 0 <= i < n && passes[i].command.Some?
        ensures Outcome(RunFrom(s, passes[..i]), passes[i]).action == None
      {
        assert passes[..n][..i] == passes[..i] && passes[..n][i] == passes[i];
      }
      QuarantinedPass(RunFrom(s, passes[..n]), passes[n]);
    }
  }

  lemma QuarantinedPass(s: NodeState, pass: Pass)
    requires s.mode == Quarantined && !ClearsQuarantine(pass)
    ensures var s' := NextStored(s, pass);
            s'.mode == Quarantined && s'.quarantine == s.quarantine && s'.appliedRevision == s.appliedRevision
    ensures pass.command.Some? ==> Outcome(s, pass).action == None
  {
    if pass.command.Some? && pass.command.value.Command? && Allowed(pass.command.value.kind, s.mode) {
      match pass.command.value.kind
      case NodeResume =>
      case DesiredStateValidate => QuarantinedDiagnosis(s, pass.command.value.payload, pass.startedAt, pass.finishedAt);
      case CapabilitiesReport => QuarantinedDiagnosis(s, pass.command.value.payload, pass.startedAt, pass.finishedAt);
      case ConflictScan =>
    }
  }

  lemma QuarantinedDiagnosis(s: NodeState, p: Payload, startedAt: string, finishedAt: string)
    ensures var r := TransitionValidate(s, p, startedAt, finishedAt);
            r.Success? ==> r.value.mode == s.mode && r.value.quarantine == s.quarantine
                           && r.value.appliedRevision == s.appliedRevision
    ensures var r := TransitionReport(s, startedAt, finishedAt);
            r.Success? ==> r.value.mode == s.mode && r.value.quarantine == s.quarantine
                           && r.value.appliedRevision == s.appliedRevision
  {
  }

  /** The way out: a resume that clears the quarantine makes an idle node active again. */
  lemma ResumeEndsQuarantine(s: NodeState, pass: Pass)
    requires Settled(s) && s.mode == Quarantined && ClearsQuarantine(pass)
    ensures var s' := NextStored(s, pass);
            s'.mode == Active && s'.quarantine == None && Settled(s') && s'.revision == s.revision + 1
  {
  }
}
