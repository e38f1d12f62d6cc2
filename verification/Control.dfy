/** The operations of src/snarkyctl/control/daemon.py as steps: every provider call, repository call
    and assignment of shared state is one step, and the VPN may drop before any of them. */
module Control {
  import opened Prelude
  import opened NordVpn
  import opened Catalogue

  // ---------------------------------------------------------------- Provider

  datatype VpnState = Disconnected | Connecting | Connected | Disconnecting | FailedState | UnknownState

  datatype Mode = VPN | LOCKED | DIRECT | UNKNOWN

  /** The true state of the upstream VPN. */
  datatype Provider = Provider(connected: bool, protection: bool, firewall: bool)

  /** A provider call may raise before its effect, after it, or not at all; or it may return as if
      nothing were wrong without having had its effect. */
  datatype Fault = NoFault | Before | After | Silent

  /** What the environment decides about one step: the fault, whether the VPN drops within the call,
      and how readable the provider's report is. `vague` is reported when the state is not clear. */
  datatype Choice = Choice(fault: Fault, dropInside: bool, clear: bool, vague: VpnState, protectionLegible: bool,
      firewallLegible: bool)

  datatype Call = SetProtection(on: bool) | ConnectCall | DisconnectCall | SettingsCall

  function Drop(p: Provider): Provider { p.(connected := false) }

  predicate TakesEffect(choice: Choice) { choice.fault == NoFault || choice.fault == After }

  /** The provider after a call. */
  function Effect(p: Provider, call: Call, choice: Choice): Provider {
    var done :=
      if !TakesEffect(choice) then p
      else match call
           case SetProtection(on) => p.(protection := on)
           case ConnectCall => p.(connected := true)
           case DisconnectCall => p.(connected := false)
           case SettingsCall => p;
    if choice.dropInside then Drop(done) else done
  }

  predicate Raised(choice: Choice) { choice.fault == Before || choice.fault == After }

  /** Reports are truthful when they are clear: CONNECTED and DISCONNECTED are never invented. */
  function StateReport(p: Provider, choice: Choice): VpnState {
    if choice.clear then if p.connected then Connected else Disconnected
    else if choice.vague == Connected || choice.vague == Disconnected then UnknownState
    else choice.vague
  }

  function ProtectionReport(p: Provider, choice: Choice): Option<bool> {
    if choice.protectionLegible then Some(p.protection) else None
  }

  function FirewallReport(p: Provider, choice: Choice): Option<bool> {
    if choice.firewallLegible then Some(p.firewall) else None
  }

  /** _with_gateway_mode */
  function GatewayMode(state: VpnState, protection: Option<bool>): Mode {
    if state == Connected then VPN
    else if state == Disconnected && protection == Some(true) then LOCKED
    else if state == Disconnected && protection == Some(false) then DIRECT
    else UNKNOWN
  }

  // ---------------------------------------------------------------- Requests and shared state

  datatype Request =
    | Protected(alias: string)
    | Connect(alias: string)
    | Disconnect
    | Lock
    | Direct
    | ReplaceTargets(provider: string, expected: nat, targets: seq<StoredTarget>)

  datatype Code =
    | UnknownTarget | UnknownProvider | UnsafeDisconnect | UnsupportedOperation | UnsupportedSelection
    | ProtectionNotEnabled | ProtectionNotDisabled | ModeTransitionFailed | ProviderFailed
    | InvalidTargets | Conflict | StorageError | MigrationRequired | InternalError

  datatype Reply = Success(mode: Mode) | Replaced(catalogue: TargetCatalogue) | Refused(code: Code)

  /** What is fixed at start: the provider's name and capabilities, whether it has the built-in
      recommended target, and whether the repository is the read-only YAML bridge. */
  datatype Config = Config(name: string, selection: bool, configurable: bool, builtin: bool, readOnly: bool)

  /** The state that the operation lock protects: the provider, the repository, and the two
      in-memory views of the catalogue. */
  datatype Core = Core(provider: Provider, repository: Store, catalogue: TargetCatalogue,
      targets: map<string, StoredTarget>)

  const RECOMMENDED := "recommended"
  const BUILTIN := StoredTarget(RECOMMENDED, "Fastest available server", 0, map["kind" := Text(RECOMMENDED)])

  /** _is_reserved_builtin_target */
  predicate Reserved(config: Config, target: StoredTarget) {
    config.builtin &&
      (target.alias == RECOMMENDED || ("kind" in target.selector && target.selector["kind"] == Text(RECOMMENDED)))
  }

  predicate NoneReserved(config: Config, targets: seq<StoredTarget>) {
    forall target :: target in targets ==> !Reserved(config, target)
  }

  function Unreserved(config: Config, targets: seq<StoredTarget>): (kept: seq<StoredTarget>)
    ensures NoneReserved(config, kept) && |kept| <= |targets|
    ensures forall target :: target in kept <==> target in targets && !Reserved(config, target)
    ensures NoneReserved(config, targets) ==> kept == targets
  {
    if targets == [] then []
    else
      var earlier, last := targets[..|targets| - 1], targets[|targets| - 1];
      assert targets == earlier + [last];
      Unreserved(config, earlier) + (if Reserved(config, last) then [] else [last])
  }

  /** `kept` lists the wanted targets in order: `places` are exactly the wanted positions, increasing. */
  ghost predicate KeptInOrder(targets: seq<StoredTarget>, wanted: seq<bool>, kept: seq<StoredTarget>,
      places: seq<nat>)
  {
    && |wanted| == |targets| && |places| == |kept|
    && (forall i :: 0 <= i < |places| ==> places[i] < |targets| && targets[places[i]] == kept[i])
    && (forall i, j :: 0 <= i < j < |places| ==> places[i] < places[j])
    && forall k: nat :: k in places <==> k < |targets| && wanted[k]
  }

  lemma KeptMore(
    targets: seq<StoredTarget>, wanted: seq<bool>, kept: seq<StoredTarget>, places: seq<nat>, last: StoredTarget,
      want: bool)
    requires KeptInOrder(targets, wanted, kept, places)
    ensures want ==> KeptInOrder(targets + [last], wanted + [want], kept + [last], places + [|targets|])
    ensures !want ==> KeptInOrder(targets + [last], wanted + [want], kept, places)
  {
    forall i | 0 <= i < |places| ensures places[i] < |targets| { assert places[i] in places; }
  }

  function Wanted(config: Config, targets: seq<StoredTarget>): (wanted: seq<bool>)
    ensures |wanted| == |targets|
    ensures forall i :: 0 <= i < |targets| ==> (wanted[i] <==> !Reserved(config, targets[i]))
  {
    if targets == [] then []
    else Wanted(config, targets[..|targets| - 1]) + [!Reserved(config, targets[|targets| - 1])]
  }

  function Filtered(targets: seq<StoredTarget>, wanted: seq<bool>): seq<StoredTarget>
    requires |wanted| == |targets|
  {
    if targets == [] then []
    else
      var n := |targets| - 1;
      Filtered(targets[..n], wanted[..n]) + (if wanted[n] then [targets[n]] else [])
  }

  lemma {:induction false} FilteredInOrder(targets: seq<StoredTarget>, wanted: seq<bool>) returns (places: seq<nat>)
    requires |wanted| == |targets|
    ensures KeptInOrder(targets, wanted, Filtered(targets, wanted), places)
  {
    if targets == [] {
      places := [];
    } else {
      var n := |targets| - 1;
      places := FilteredInOrder(targets[..n], wanted[..n]);
      KeptMore(targets[..n], wanted[..n], Filtered(targets[..n], wanted[..n]), places, targets[n], wanted[n]);
      assert targets == targets[..n] + [targets[n]] && wanted == wanted[..n] + [wanted[n]];
      if wanted[n] { places := places + [n]; }
    }
  }

  lemma {:induction false} UnreservedIsFiltered(config: Config, targets: seq<StoredTarget>)
    ensures |Wanted(config, targets)| == |targets|
    ensures Unreserved(config, targets) == Filtered(targets, Wanted(config, targets))
  {
    if targets != [] {
      var n := |targets| - 1;
      UnreservedIsFiltered(config, targets[..n]);
      assert Wanted(config, targets)[..n] == Wanted(config, targets[..n]);
    }
  }

  /** Filtering keeps exactly the unreserved targets, in order. */
  lemma UnreservedInOrder(config: Config, targets: seq<StoredTarget>) returns (places: seq<nat>)
    ensures KeptInOrder(targets, Wanted(config, targets), Unreserved(config, targets), places)
  {
    UnreservedIsFiltered(config, targets);
    places := FilteredInOrder(targets, Wanted(config, targets));
  }

  predicate SameButPosition(first: StoredTarget, second: StoredTarget) {
    first.alias == second.alias && first.title == second.title && first.selector == second.selector
  }

  function Renumbered(targets: seq<StoredTarget>): (result: seq<StoredTarget>)
    ensures |result| == |targets|
    ensures forall i :: 0 <= i < |targets| ==> result[i].position == i && SameButPosition(result[i], targets[i])
    ensures ValidOrder(targets) ==> result == targets
  {
    seq(|targets|, i requires 0 <= i < |targets| => targets[i].(position := i))
  }

  /** The editable view of a stored catalogue: reserved targets removed, positions renumbered. */
  function Editable(config: Config, catalogue: TargetCatalogue): TargetCatalogue {
    catalogue.(targets := Renumbered(Unreserved(config, catalogue.targets)))
  }

  /** {target.alias: target for target in targets if not reserved} */
  function AliasMap(config: Config, targets: seq<StoredTarget>): map<string, StoredTarget> {
    if targets == [] then map[]
    else
      var last := targets[|targets| - 1];
      var rest := AliasMap(config, targets[..|targets| - 1]);
      if Reserved(config, last) then rest else rest[last.alias := last]
  }

  /** ControlService.__init__ */
  function Initial(config: Config, provider: Provider, repository: Store): Core {
    var catalogue := Editable(config, Current(repository, config.name));
    Core(provider, repository, catalogue, AliasMap(config, catalogue.targets))
  }

  /** _resolve_target */
  function Resolve(config: Config, targets: map<string, StoredTarget>, alias: string): Option<StoredTarget> {
    if config.builtin && alias == RECOMMENDED then Some(BUILTIN)
    else if alias in targets then Some(targets[alias]) else None
  }

  /** Validate the selector of every submitted target; None when one is invalid. */
  function Normalized(targets: seq<StoredTarget>): (result: Option<seq<StoredTarget>>)
    ensures result.None? <==> exists i :: 0 <= i < |targets| && ValidateSelector(targets[i].selector).Err?
    ensures result.Some? ==> |result.value| == |targets| && forall i :: 0 <= i < |targets| ==>
      ValidateSelector(targets[i].selector).Ok? &&
        result.value[i] == targets[i].(selector := ValidateSelector(targets[i].selector).value)
  {
    if targets == [] then Some([])
    else
      var rest := Normalized(targets[..|targets| - 1]);
      var last := targets[|targets| - 1];
      if rest.None? || ValidateSelector(last.selector).Err? then None
      else Some(rest.value + [last.(selector := ValidateSelector(last.selector).value)])
  }

  // ---------------------------------------------------------------- Steps of one operation

  /** Where an operation stands. A connect or disconnect call returns before the remembered alias is
      assigned, so that is a step of its own. `Finished` remembers whether the restoring call of a
      failed DIRECT was without effect. */
  datatype PC =
    | Begin(request: Request)
    | EnableForConnect(target: StoredTarget)
    | Dial(target: StoredTarget, strict: bool)
    | RememberAlias(target: StoredTarget, state: VpnState, strict: bool)
    | ReadAfterConnect(state: VpnState, strict: bool)
    | CheckSettings
    | DisconnectChecked
    | ForgetAlias(state: VpnState)
    | EnableForLock
    | DisconnectForLock
    | ForgetForLock(state: VpnState)
    | ReadForLock(state: VpnState)
    | DisableForDirect
    | DisconnectForDirect
    | ForgetForDirect(state: VpnState)
    | ReadForDirect(state: VpnState)
    | RestoreAfterDirect(code: Code)
    | Storing(expected: nat, targets: seq<StoredTarget>)
    | PublishCatalogue(catalogue: TargetCatalogue)
    | PublishTargets(catalogue: TargetCatalogue)
    | Finished(reply: Reply, stuck: bool)

  function Refuse(code: Code): PC { Finished(Refused(code), false) }

  /** The checks before the first provider or repository call. */
  function Opening(config: Config, core: Core, request: Request): PC {
    match request
    case Protected(alias) =>
      var target := Resolve(config, core.targets, alias);
      if target.None? then Refuse(UnknownTarget)
      else if !config.configurable then Refuse(UnsupportedOperation)
      else EnableForConnect(target.value)
    case Connect(alias) =>
      var target := Resolve(config, core.targets, alias);
      if target.None? then Refuse(UnknownTarget) else Dial(target.value, false)
    case Disconnect => CheckSettings
    case Lock => if config.configurable then EnableForLock else Refuse(UnsupportedOperation)
    case Direct => if config.configurable then DisableForDirect else Refuse(UnsupportedOperation)
    case ReplaceTargets(provider, expected, targets) =>
      if provider != config.name then Refuse(UnknownProvider)
      else if !config.selection then Refuse(UnsupportedSelection)
      else if targets == [] && !config.builtin then Refuse(InvalidTargets)
      else if !NoneReserved(config, targets) then Refuse(InvalidTargets)
      else if Normalized(targets).None? then Refuse(InvalidTargets)
      else Storing(expected, Normalized(targets).value)
  }

  /** The provider call that a step makes, if any. */
  function CallOf(pc: PC): Option<Call> {
    match pc
    case EnableForConnect(_) => Some(SetProtection(true))
    case Dial(_, _) => Some(ConnectCall)
    case ReadAfterConnect(_, _) => Some(SettingsCall)
    case CheckSettings => Some(SettingsCall)
    case DisconnectChecked => Some(DisconnectCall)
    case EnableForLock => Some(SetProtection(true))
    case DisconnectForLock => Some(DisconnectCall)
    case ReadForLock(_) => Some(SettingsCall)
    case DisableForDirect => Some(SetProtection(false))
    case DisconnectForDirect => Some(DisconnectCall)
    case ReadForDirect(_) => Some(SettingsCall)
    case RestoreAfterDirect(_) => Some(SetProtection(true))
    case _ => None
  }

  /** Where a provider call leads, given the provider after it. */
  function AfterCall(pc: PC, after: Provider, choice: Choice): PC
    requires CallOf(pc).Some?
  {
    var state := StateReport(after, choice);
    var protection, firewall := ProtectionReport(after, choice), FirewallReport(after, choice);
    match pc
    case EnableForConnect(target) =>
      if Raised(choice) then Refuse(ProviderFailed)
      else if protection != Some(true) then Refuse(ProtectionNotEnabled)
      else Dial(target, true)
    case Dial(target, strict) =>
      if Raised(choice) then Refuse(ProviderFailed) else RememberAlias(target, state, strict)
    case ReadAfterConnect(seen, strict) =>
      if Raised(choice) && strict then Refuse(ProviderFailed)
      else
        var mode := GatewayMode(seen, if Raised(choice) then None else protection);
        if strict && mode != VPN then Refuse(ModeTransitionFailed) else Finished(Success(mode), false)
    case CheckSettings =>
      if Raised(choice) then Refuse(ProviderFailed)
      else if protection == Some(true) && firewall == Some(true) then DisconnectChecked
      else Refuse(UnsafeDisconnect)
    case DisconnectChecked =>
      if Raised(choice) then Refuse(ProviderFailed) else ForgetAlias(state)
    case EnableForLock =>
      if Raised(choice) then Refuse(ProviderFailed)
      else if protection != Some(true) then Refuse(ProtectionNotEnabled)
      else DisconnectForLock
    case DisconnectForLock =>
      if Raised(choice) then Refuse(ProviderFailed) else ForgetForLock(state)
    case ReadForLock(seen) =>
      if Raised(choice) then Refuse(ProviderFailed)
      else if GatewayMode(seen, protection) != LOCKED then Refuse(ModeTransitionFailed)
      else Finished(Success(LOCKED), false)
    case DisableForDirect =>
      if Raised(choice) then RestoreAfterDirect(ProviderFailed)
      else if protection != Some(false) then RestoreAfterDirect(ProtectionNotDisabled)
      else DisconnectForDirect
    case DisconnectForDirect =>
      if Raised(choice) then RestoreAfterDirect(ProviderFailed) else ForgetForDirect(state)
    case ReadForDirect(seen) =>
      if Raised(choice) then RestoreAfterDirect(ProviderFailed)
      else if GatewayMode(seen, protection) != DIRECT then RestoreAfterDirect(ModeTransitionFailed)
      else Finished(Success(DIRECT), false)
    case RestoreAfterDirect(code) => Finished(Refused(code), !TakesEffect(choice))
  }

  /** Where an assignment of the remembered alias leads; None at any other position. */
  function AfterNote(pc: PC): Option<PC> {
    match pc
    case RememberAlias(_, state, strict) => Some(ReadAfterConnect(state, strict))
    case ForgetAlias(state) => Some(Finished(Success(GatewayMode(state, Some(true))), false))
    case ForgetForLock(state) => Some(ReadForLock(state))
    case ForgetForDirect(state) => Some(ReadForDirect(state))
    case _ => None
  }

  /** The alias that such a step assigns. */
  function NotedAlias(pc: PC): Option<string>
    requires AfterNote(pc).Some?
  {
    if pc.RememberAlias? then Some(pc.target.alias) else None
  }

  /** An operation in progress. */
  datatype Machine = Machine(core: Core, pc: PC)

  /** One step of the thread that runs the operation. */
  function Tick(config: Config, m: Machine, choice: Choice): Machine {
    match m.pc
    case Begin(request) => m.(pc := Opening(config, m.core, request))
    case Storing(expected, targets) =>
      if config.readOnly then m.(pc := Refuse(MigrationRequired))
      else if !ValidOrder(targets) then m.(pc := Refuse(InternalError))
      else if choice.fault != NoFault then m.(pc := Refuse(StorageError))
      else
        var (store, answer) := Replace(m.core.repository, config.name, expected, targets);
        if answer.Err? then m.(pc := Refuse(Conflict))
        else Machine(m.core.(repository := store), PublishCatalogue(answer.value))
    case PublishCatalogue(catalogue) => Machine(m.core.(catalogue := catalogue), PublishTargets(catalogue))
    case PublishTargets(catalogue) =>
      Machine(m.core.(targets := AliasMap(config, catalogue.targets)), Finished(Replaced(catalogue), false))
    case Finished(_, _) => m
    case RememberAlias(_, _, _) => m.(pc := AfterNote(m.pc).value)
    case ForgetAlias(_) => m.(pc := AfterNote(m.pc).value)
    case ForgetForLock(_) => m.(pc := AfterNote(m.pc).value)
    case ForgetForDirect(_) => m.(pc := AfterNote(m.pc).value)
    case _ =>
      var after := Effect(m.core.provider, CallOf(m.pc).value, choice);
      Machine(m.core.(provider := after), AfterCall(m.pc, after, choice))
  }

  /** While an operation runs, either its thread steps or the VPN drops. */
  datatype Input = Dropped | Chosen(choice: Choice)

  /** A step that meets neither faults nor drops. */
  const QUIET := Choice(NoFault, false, true, UnknownState, true, true)

  function Feed(config: Config, m: Machine, input: Input): Machine {
    match input
    case Dropped => m.(core := m.core.(provider := Drop(m.core.provider)))
    case Chosen(choice) => Tick(config, m, choice)
  }

  function FeedAll(config: Config, m: Machine, inputs: seq<Input>): Machine {
    if inputs == [] then m else Feed(config, FeedAll(config, m, inputs[..|inputs| - 1]), inputs[|inputs| - 1])
  }

  lemma FeedAllSnoc(config: Config, m: Machine, inputs: seq<Input>, input: Input)
    ensures FeedAll(config, m, inputs + [input]) == Feed(config, FeedAll(config, m, inputs), input)
  {
    assert (inputs + [input])[..|inputs|] == inputs;
  }

  /** The operation run alone from `core`, on the given decisions of the environment. */
  function RunAlone(config: Config, core: Core, request: Request, inputs: seq<Input>): Machine {
    FeedAll(config, Machine(core, Begin(request)), inputs)
  }

  // ---------------------------------------------------------------- Termination

  /** Steps left at most. */
  function Remaining(pc: PC): nat {
    match pc
    case Begin(_) => 6
    case EnableForConnect(_) => 4
    case Dial(_, _) => 3
    case RememberAlias(_, _, _) => 2
    case ReadAfterConnect(_, _) => 1
    case CheckSettings => 3
    case DisconnectChecked => 2
    case ForgetAlias(_) => 1
    case EnableForLock => 4
    case DisconnectForLock => 3
    case ForgetForLock(_) => 2
    case ReadForLock(_) => 1
    case DisableForDirect => 5
    case DisconnectForDirect => 4
    case ForgetForDirect(_) => 3
    case ReadForDirect(_) => 2
    case RestoreAfterDirect(_) => 1
    case Storing(_, _) => 3
    case PublishCatalogue(_) => 2
    case PublishTargets(_) => 1
    case Finished(_, _) => 0
  }

  function Steps(inputs: seq<Input>): nat {
    if inputs == [] then 0 else Steps(inputs[..|inputs| - 1]) + if inputs[|inputs| - 1].Chosen? then 1 else 0
  }

  /** Whatever raises, whatever is reported and however often the VPN drops, every operation is
      finished after at most six of its own steps. */
  lemma {:induction false} OperationsFinish(config: Config, core: Core, request: Request, inputs: seq<Input>)
    ensures Remaining(RunAlone(config, core, request, inputs).pc) + Steps(inputs) <= 6 ||
      RunAlone(config, core, request, inputs).pc.Finished?
    ensures Steps(inputs) >= 6 ==> RunAlone(config, core, request, inputs).pc.Finished?
  {
    if inputs != [] {
      OperationsFinish(config, core, request, inputs[..|inputs| - 1]);
      var m := RunAlone(config, core, request, inputs[..|inputs| - 1]);
      if inputs[|inputs| - 1].Chosen? && !m.pc.Finished? { TickShrinks(config, m, inputs[|inputs| - 1].choice); }
    }
    UnfinishedSteps(RunAlone(config, core, request, inputs).pc);
  }

  /** An operation that is not finished has fewer steps left after each of its own. */
  lemma TickShrinks(config: Config, m: Machine, choice: Choice)
    requires !m.pc.Finished?
    ensures Remaining(Tick(config, m, choice).pc) < Remaining(m.pc) <= 6
  {
  }

  lemma UnfinishedSteps(pc: PC)
    ensures pc.Finished? <==> Remaining(pc) == 0
  {
  }

  // ---------------------------------------------------------------- What each position knows

  /** Facts about leak protection at each position of an operation started from `start`. */
  ghost predicate Protects(start: Core, request: Request, m: Machine) {
    var on, was := m.core.provider.protection, start.provider.protection;
    match m.pc
    case Begin(r) => r == request && on == was
    case EnableForConnect(_) => request.Protected? && on == was
    case Dial(_, strict) => (if strict then request.Protected? && on else request.Connect? && on == was)
    case RememberAlias(_, seen, strict) =>
      && (if strict then request.Protected? && on else request.Connect? && on == was)
      && (seen == Disconnected ==> !m.core.provider.connected)
    case ReadAfterConnect(seen, strict) =>
      && (if strict then request.Protected? && on else request.Connect? && on == was)
      && (seen == Disconnected ==> !m.core.provider.connected)
    case CheckSettings => request == Disconnect && on == was
    case DisconnectChecked => request == Disconnect && on && was && m.core.provider.firewall
    case ForgetAlias(seen) => request == Disconnect && on && was &&
      (seen == Disconnected ==> !m.core.provider.connected)
    case EnableForLock => request == Lock && on == was
    case DisconnectForLock => request == Lock && on
    case ForgetForLock(seen) => request == Lock && on && (seen == Disconnected ==> !m.core.provider.connected)
    case ReadForLock(seen) => request == Lock && on && (seen == Disconnected ==> !m.core.provider.connected)
    case DisableForDirect => request == Direct && on == was
    case DisconnectForDirect => request == Direct && !on
    case ForgetForDirect(seen) => request == Direct && !on && (seen == Disconnected ==> !m.core.provider.connected)
    case ReadForDirect(seen) => request == Direct && !on && (seen == Disconnected ==> !m.core.provider.connected)
    case RestoreAfterDirect(_) => request == Direct
    case Storing(_, _) => request.ReplaceTargets? && on == was
    case PublishCatalogue(_) => request.ReplaceTargets? && on == was
    case PublishTargets(_) => request.ReplaceTargets? && on == was
    case Finished(reply, stuck) => Outcome(start, request, m.core, reply, stuck)
  }

  /** A mode that claims a disconnected VPN is right about it and about protection. */
  predicate ModeHolds(p: Provider, mode: Mode) {
    && (mode == LOCKED ==> p.protection && !p.connected)
    && (mode == DIRECT ==> !p.protection && !p.connected)
  }

  /** What a finished operation guarantees about protection. Success replies are true at the end of
      the operation, not only when they were computed. */
  ghost predicate Outcome(start: Core, request: Request, end: Core, reply: Reply, stuck: bool) {
    var on, was := end.provider.protection, start.provider.protection;
    && (stuck ==> request == Direct && reply.Refused?)
    && (reply.Replaced? ==> request.ReplaceTargets? && on == was)
    && (reply.Success? ==>
      match request
      case Protected(_) => reply.mode == VPN && on
      case Connect(_) => on == was && ModeHolds(end.provider, reply.mode)
      case Disconnect => on && was && reply.mode != DIRECT && ModeHolds(end.provider, reply.mode)
      case Lock => reply.mode == LOCKED && on && !end.provider.connected
      case Direct => reply.mode == DIRECT && !on && !end.provider.connected
      case ReplaceTargets(_, _, _) => false)
    && (reply.Refused? ==>
      match request
      case Protected(_) => on == was || on
      case Lock => on == was || on
      case Direct => on || stuck || (reply.code == UnsupportedOperation && on == was)
      case _ => on == was)
  }

  lemma TickProtects(config: Config, start: Core, request: Request, m: Machine, choice: Choice)
    requires Protects(start, request, m)
    ensures Protects(start, request, Tick(config, m, choice))
  {
    if CallOf(m.pc).Some? {
      var after := Effect(m.core.provider, CallOf(m.pc).value, choice);
      CallProtects(start, request, m, choice, after, AfterCall(m.pc, after, choice));
    } else if AfterNote(m.pc).Some? {
      NoteProtects(start, request, m);
    } else {
      LocalProtects(config, start, request, m, choice);
    }
  }

  lemma NoteProtects(start: Core, request: Request, m: Machine)
    requires Protects(start, request, m) && AfterNote(m.pc).Some?
    ensures Protects(start, request, m.(pc := AfterNote(m.pc).value))
  {
  }

  lemma LocalProtects(config: Config, start: Core, request: Request, m: Machine, choice: Choice)
    requires Protects(start, request, m) && CallOf(m.pc).None? && AfterNote(m.pc).None?
    ensures Protects(start, request, Tick(config, m, choice))
  {
  }

  lemma CallProtects(start: Core, request: Request, m: Machine, choice: Choice, after: Provider, next: PC)
    requires Protects(start, request, m) && CallOf(m.pc).Some?
    requires after == Effect(m.core.provider, CallOf(m.pc).value, choice) && next == AfterCall(m.pc, after, choice)
    ensures Protects(start, request, Machine(m.core.(provider := after), next))
  {
    match request
    case Protected(_) => DialProtects(start, request, m, choice, after, next);
    case Connect(_) => DialProtects(start, request, m, choice, after, next);
    case Direct => DirectProtects(start, request, m, choice, after, next);
    case Disconnect => DisconnectProtects(start, request, m, choice, after, next);
    case Lock => LockProtects(start, request, m, choice, after, next);
    case ReplaceTargets(_, _, _) =>
  }

  lemma DisconnectProtects(start: Core, request: Request, m: Machine, choice: Choice, after: Provider, next: PC)
    requires Protects(start, request, m) && CallOf(m.pc).Some? && request.Disconnect?
    requires after == Effect(m.core.provider, CallOf(m.pc).value, choice) && next == AfterCall(m.pc, after, choice)
    ensures Protects(start, request, Machine(m.core.(provider := after), next))
  {
    match m.pc
    case CheckSettings =>
    case DisconnectChecked =>
  }

  lemma LockProtects(start: Core, request: Request, m: Machine, choice: Choice, after: Provider, next: PC)
    requires Protects(start, request, m) && CallOf(m.pc).Some? && request.Lock?
    requires after == Effect(m.core.provider, CallOf(m.pc).value, choice) && next == AfterCall(m.pc, after, choice)
    ensures Protects(start, request, Machine(m.core.(provider := after), next))
  {
    match m.pc
    case EnableForLock =>
    case DisconnectForLock =>
    case ReadForLock(_) =>
  }

  lemma DialProtects(start: Core, request: Request, m: Machine, choice: Choice, after: Provider, next: PC)
    requires Protects(start, request, m) && CallOf(m.pc).Some? && (request.Protected? || request.Connect?)
    requires after == Effect(m.core.provider, CallOf(m.pc).value, choice) && next == AfterCall(m.pc, after, choice)
    ensures Protects(start, request, Machine(m.core.(provider := after), next))
  {
    match m.pc
    case EnableForConnect(_) =>
    case Dial(_, _) =>
    case ReadAfterConnect(_, _) =>
  }

  lemma DirectProtects(start: Core, request: Request, m: Machine, choice: Choice, after: Provider, next: PC)
    requires Protects(start, request, m) && CallOf(m.pc).Some? && request.Direct?
    requires after == Effect(m.core.provider, CallOf(m.pc).value, choice) && next == AfterCall(m.pc, after, choice)
    ensures Protects(start, request, Machine(m.core.(provider := after), next))
  {
    match m.pc
    case DisableForDirect =>
    case DisconnectForDirect =>
    case ReadForDirect(_) =>
    case RestoreAfterDirect(_) =>
  }

  lemma {:induction false} RunProtects(config: Config, start: Core, request: Request, inputs: seq<Input>)
    ensures Protects(start, request, RunAlone(config, start, request, inputs))
  {
    if inputs != [] {
      RunProtects(config, start, request, inputs[..|inputs| - 1]);
      var m := RunAlone(config, start, request, inputs[..|inputs| - 1]);
      if inputs[|inputs| - 1].Chosen? { TickProtects(config, start, request, m, inputs[|inputs| - 1].choice); }
    }
  }

  /** Only a DIRECT switches leak protection off, and only when it succeeds or its restoring
      call has no effect. */
  lemma OnlyDirectExposes(config: Config, start: Core, request: Request, inputs: seq<Input>)
    requires var m := RunAlone(config, start, request, inputs);
      m.pc.Finished? && start.provider.protection && !m.core.provider.protection
    ensures request == Direct
    ensures var m := RunAlone(config, start, request, inputs); m.pc.reply == Success(DIRECT) || m.pc.stuck
  {
    RunProtects(config, start, request, inputs);
  }

  // ---------------------------------------------------------------- A failed DIRECT

  /** In the DIRECT run on these inputs some disabling call took effect. */
  function Disabled(config: Config, start: Core, inputs: seq<Input>): bool {
    if inputs == [] then false
    else
      var earlier, last := inputs[..|inputs| - 1], inputs[|inputs| - 1];
      || Disabled(config, start, earlier)
      || (last.Chosen? && RunAlone(config, start, Direct, earlier).pc.DisableForDirect? && TakesEffect(last.choice))
  }

  /** In the DIRECT run on these inputs a restoring call was made, with or without effect as given. */
  function Restoring(config: Config, start: Core, inputs: seq<Input>, effective: bool): bool {
    if inputs == [] then false
    else
      var earlier, last := inputs[..|inputs| - 1], inputs[|inputs| - 1];
      || Restoring(config, start, earlier, effective)
      || (last.Chosen? && RunAlone(config, start, Direct, earlier).pc.RestoreAfterDirect? &&
          TakesEffect(last.choice) == effective)
  }

  /** Protection at every position of a DIRECT: restored, else disabled, else as it was. */
  ghost predicate DirectKnows(
    config: Config, start: Core, m: Machine, disabled: bool, restored: bool, unrestored: bool)
  {
    && m.core.provider.protection == (restored || (!disabled && start.provider.protection))
    && match m.pc
       case Begin(r) => r == Direct && !disabled && !restored && !unrestored
       case DisableForDirect => config.configurable && !disabled && !restored && !unrestored
       case DisconnectForDirect => !restored && !unrestored
       case ForgetForDirect(_) => !restored && !unrestored
       case ReadForDirect(_) => !restored && !unrestored
       case RestoreAfterDirect(_) => !restored && !unrestored
       case Finished(reply, stuck) =>
         && stuck == unrestored && !(restored && unrestored)
         && (restored || unrestored ==> reply.Refused?)
         && (reply.Refused? && !restored && !unrestored ==> !config.configurable && !disabled)
       case _ => false
  }

  lemma TickKnows(config: Config, start: Core, m: Machine, choice: Choice,
      disabled: bool, restored: bool, unrestored: bool)
    requires DirectKnows(config, start, m, disabled, restored, unrestored)
    ensures DirectKnows(config, start, Tick(config, m, choice),
      disabled || (m.pc.DisableForDirect? && TakesEffect(choice)),
      restored || (m.pc.RestoreAfterDirect? && TakesEffect(choice)),
      unrestored || (m.pc.RestoreAfterDirect? && !TakesEffect(choice)))
  {
  }

  lemma {:induction false} RunKnows(config: Config, start: Core, inputs: seq<Input>)
    ensures DirectKnows(config, start, RunAlone(config, start, Direct, inputs),
      Disabled(config, start, inputs), Restoring(config, start, inputs, true), Restoring(config, start, inputs, false))
  {
    if inputs != [] {
      var earlier, last := inputs[..|inputs| - 1], inputs[|inputs| - 1];
      RunKnows(config, start, earlier);
      if last.Chosen? {
        TickKnows(config, start, RunAlone(config, start, Direct, earlier), last.choice,
          Disabled(config, start, earlier), Restoring(config, start, earlier, true),
          Restoring(config, start, earlier, false));
      }
    }
  }

  /** A refused DIRECT leaves protection off exactly when its restoring call was made without effect,
      and its disabling call took effect or protection was off before. The reply says nothing of it. */
  lemma FailedDirectExactly(config: Config, start: Core, inputs: seq<Input>)
    requires config.configurable
    requires var m := RunAlone(config, start, Direct, inputs); m.pc.Finished? && m.pc.reply.Refused?
    ensures var m := RunAlone(config, start, Direct, inputs);
      && (!m.core.provider.protection <==>
          Restoring(config, start, inputs, false) && (Disabled(config, start, inputs) || !start.provider.protection))
      && m.pc.stuck == Restoring(config, start, inputs, false)
  {
    RunKnows(config, start, inputs);
  }

  /** A DIRECT that succeeded, or whose restoring call had no effect, never switches protection on. */
  lemma ExposingNeverProtects(config: Config, start: Core, inputs: seq<Input>)
    requires !start.provider.protection
    requires var m := RunAlone(config, start, Direct, inputs);
      m.pc.Finished? && (m.pc.reply == Success(DIRECT) || m.pc.stuck)
    ensures !RunAlone(config, start, Direct, inputs).core.provider.protection
  {
    RunKnows(config, start, inputs);
  }

  /** It does happen: disabling raises after its effect, and restoring raises before it. */
  lemma FailedDirectExposes(config: Config, start: Core) returns (inputs: seq<Input>)
    requires config.configurable && start.provider.protection
    ensures var m := RunAlone(config, start, Direct, inputs);
      m.pc == Finished(Refused(ProviderFailed), true) && !m.core.provider.protection
  {
    var a, b, c := Chosen(QUIET), Chosen(QUIET.(fault := After)), Chosen(QUIET.(fault := Before));
    var m := Machine(start, Begin(Direct));
    inputs := [a, b, c];
    FeedAllSnoc(config, m, [], a);
    FeedAllSnoc(config, m, [a], b);
    FeedAllSnoc(config, m, [a, b], c);
    assert [] + [a] == [a] && [a] + [b] == [a, b] && [a, b] + [c] == inputs;
  }

  // ---------------------------------------------------------------- Agreement with the repository

  /** The in-memory views agree with the repository. */
  ghost predicate Agrees(config: Config, core: Core) {
    && ValidStore(core.repository)
    && core.catalogue == Editable(config, Current(core.repository, config.name))
    && core.targets == AliasMap(config, core.catalogue.targets)
  }

  function Revision(config: Config, core: Core): nat { Current(core.repository, config.name).revision }

  /** What each position of an operation started from `start` knows about the catalogue. */
  ghost predicate Publishes(config: Config, start: Core, request: Request, m: Machine) {
    var core := m.core;
    match m.pc
    case Begin(r) => r == request && SameCatalogue(start, core)
    case Storing(expected, targets) =>
      && SameCatalogue(start, core) && request.ReplaceTargets? && expected == request.expected
      && NoneReserved(config, targets) && Normalized(request.targets) == Some(targets)
    case PublishCatalogue(c) =>
      Committed(config, start, request, core, c) && core.catalogue == start.catalogue && core.targets == start.targets
    case PublishTargets(c) =>
      Committed(config, start, request, core, c) && core.catalogue == c && core.targets == start.targets
    case Finished(Replaced(c), _) =>
      Committed(config, start, request, core, c) && core.catalogue == c && core.targets == AliasMap(config, c.targets)
    case _ => SameCatalogue(start, core)
  }

  predicate SameCatalogue(start: Core, core: Core) {
    core.repository == start.repository && core.catalogue == start.catalogue && core.targets == start.targets
  }

  /** The repository went from `start` to `c` by one replacement against the expected revision. */
  ghost predicate Committed(config: Config, start: Core, request: Request, core: Core, c: TargetCatalogue) {
    && request.ReplaceTargets?
    && ValidStore(core.repository)
    && core.repository == start.repository[config.name := c]
    && c.provider == config.name && c.revision == request.expected + 1 == Revision(config, start) + 1
    && NoneReserved(config, c.targets) && ValidOrder(c.targets) && Normalized(request.targets) == Some(c.targets)
  }

  lemma NormalizedKeepsUnreserved(config: Config, targets: seq<StoredTarget>)
    requires NoneReserved(config, targets) && Normalized(targets).Some?
    ensures NoneReserved(config, Normalized(targets).value)
  {
    var result := Normalized(targets).value;
    forall target | target in result ensures !Reserved(config, target) {
      var i :| 0 <= i < |result| && result[i] == target;
      assert targets[i] in targets;
      ValidationIdempotent(targets[i].selector);
    }
  }

  lemma TickPublishes(config: Config, start: Core, request: Request, m: Machine, choice: Choice)
    requires ValidStore(start.repository) && Publishes(config, start, request, m)
    ensures Publishes(config, start, request, Tick(config, m, choice))
  {
    match m.pc
    case Begin(_) => BeginPublishes(config, start, request, m, choice);
    case Storing(_, _) => StoringPublishes(config, start, request, m, choice);
    case PublishCatalogue(_) => PublishingPublishes(config, start, request, m, choice);
    case PublishTargets(_) => PublishingPublishes(config, start, request, m, choice);
    case Finished(_, _) =>
    case _ => LeavingPublishes(config, start, request, m, choice);
  }

  lemma PublishingPublishes(config: Config, start: Core, request: Request, m: Machine, choice: Choice)
    requires Publishes(config, start, request, m) && (m.pc.PublishCatalogue? || m.pc.PublishTargets?)
    ensures Publishes(config, start, request, Tick(config, m, choice))
  {
  }

  lemma LeavingPublishes(config: Config, start: Core, request: Request, m: Machine, choice: Choice)
    requires Publishes(config, start, request, m) && (CallOf(m.pc).Some? || AfterNote(m.pc).Some?)
    ensures Publishes(config, start, request, Tick(config, m, choice))
  {
    TickLeaves(config, m, choice);
    LeftIsSame(config, start, request, m);
    LeftIsSame(config, start, request, Tick(config, m, choice));
  }

  /** Calls and alias assignments change nothing about the catalogue, and neither do the positions they lead to. */
  lemma TickLeaves(config: Config, m: Machine, choice: Choice)
    requires CallOf(m.pc).Some? || AfterNote(m.pc).Some?
    ensures LeavesCatalogue(Tick(config, m, choice).pc) && SameCatalogue(m.core, Tick(config, m, choice).core)
  {
    if CallOf(m.pc).Some? { CallPublishesNothing(m.pc, Effect(m.core.provider, CallOf(m.pc).value, choice), choice); }
  }

  lemma LeftIsSame(config: Config, start: Core, request: Request, m: Machine)
    requires LeavesCatalogue(m.pc)
    ensures Publishes(config, start, request, m) <==> SameCatalogue(start, m.core)
  {
  }

  /** A position that has nothing to do with the catalogue, or the end without a replacement. */
  predicate LeavesCatalogue(pc: PC) {
    CallOf(pc).Some? || AfterNote(pc).Some? || (pc.Finished? && !pc.reply.Replaced?)
  }

  /** A provider call never leads to a step that touches the catalogue. */
  lemma CallPublishesNothing(pc: PC, after: Provider, choice: Choice)
    requires CallOf(pc).Some?
    ensures LeavesCatalogue(AfterCall(pc, after, choice))
  {
  }

  lemma BeginPublishes(config: Config, start: Core, request: Request, m: Machine, choice: Choice)
    requires ValidStore(start.repository) && Publishes(config, start, request, m) && m.pc.Begin?
    ensures Publishes(config, start, request, Tick(config, m, choice))
  {
    if request.ReplaceTargets? {
      if NoneReserved(config, request.targets) && Normalized(request.targets).Some? {
        NormalizedKeepsUnreserved(config, request.targets);
      }
    } else {
      assert LeavesCatalogue(Opening(config, m.core, request));
    }
  }

  lemma StoringPublishes(config: Config, start: Core, request: Request, m: Machine, choice: Choice)
    requires ValidStore(start.repository) && Publishes(config, start, request, m) && m.pc.Storing?
    ensures Publishes(config, start, request, Tick(config, m, choice))
  {
    NoLostUpdate(m.core.repository, config.name, m.pc.expected, m.pc.targets, m.pc.targets);
  }

  lemma {:induction false} RunPublishes(config: Config, start: Core, request: Request, inputs: seq<Input>)
    requires ValidStore(start.repository)
    ensures Publishes(config, start, request, RunAlone(config, start, request, inputs))
  {
    if inputs != [] {
      RunPublishes(config, start, request, inputs[..|inputs| - 1]);
      var m := RunAlone(config, start, request, inputs[..|inputs| - 1]);
      if inputs[|inputs| - 1].Chosen? { TickPublishes(config, start, request, m, inputs[|inputs| - 1].choice); }
    }
  }

  // ---------------------------------------------------------------- Internal errors

  lemma NormalizedKeepsOrder(targets: seq<StoredTarget>)
    requires Normalized(targets).Some?
    ensures ValidOrder(Normalized(targets).value) <==> ValidOrder(targets)
  {
  }

  /** What each position knows about the error that the daemon does not catch. */
  ghost predicate Fails(config: Config, start: Core, request: Request, m: Machine) {
    match m.pc
    case Begin(r) => r == request && SameCatalogue(start, m.core)
    case Storing(expected, targets) => Opening(config, start, request) == m.pc
    case PublishCatalogue(_) => Opening(config, start, request).Storing? && !config.readOnly && OrderedRequest(request)
    case PublishTargets(_) => Opening(config, start, request).Storing? && !config.readOnly && OrderedRequest(request)
    case Finished(reply, _) => reply == Refused(InternalError) <==> Uncaught(config, start, request)
    case RestoreAfterDirect(code) => code != InternalError && !Opening(config, start, request).Storing?
    case _ => !Opening(config, start, request).Storing?
  }

  predicate OrderedRequest(request: Request) {
    request.ReplaceTargets? && ValidOrder(request.targets)
  }

  /** The request passes every check of the daemon, the repository can be written, and yet the
      submitted targets are not a catalogue. */
  predicate Uncaught(config: Config, start: Core, request: Request) {
    Opening(config, start, request).Storing? && !config.readOnly && !OrderedRequest(request)
  }

  lemma OpeningFails(config: Config, start: Core, core: Core, request: Request)
    requires SameCatalogue(start, core)
    ensures Opening(config, core, request) == Opening(config, start, request)
    ensures var pc := Opening(config, start, request);
      && (pc.Storing? ==> request.ReplaceTargets? && Normalized(request.targets) == Some(pc.targets))
      && (pc.Storing? || LeavesCatalogue(pc)) && (pc.Finished? ==> pc.reply != Refused(InternalError))
  {
  }

  lemma CallFails(pc: PC, after: Provider, choice: Choice)
    requires CallOf(pc).Some? && !(pc.RestoreAfterDirect? && pc.code == InternalError)
    ensures var next := AfterCall(pc, after, choice);
      && LeavesCatalogue(next)
      && (next.Finished? ==> next.reply != Refused(InternalError))
      && (next.RestoreAfterDirect? ==> next.code != InternalError)
  {
  }

  lemma TickFails(config: Config, start: Core, request: Request, m: Machine, choice: Choice)
    requires Fails(config, start, request, m)
    ensures Fails(config, start, request, Tick(config, m, choice))
  {
    if CallOf(m.pc).Some? {
      CallFails(m.pc, Effect(m.core.provider, CallOf(m.pc).value, choice), choice);
    } else if m.pc.Begin? {
      OpeningFails(config, start, m.core, request);
    } else if m.pc.Storing? {
      StoringFails(config, start, request, m, choice);
    }
  }

  lemma StoringFails(config: Config, start: Core, request: Request, m: Machine, choice: Choice)
    requires Fails(config, start, request, m) && m.pc.Storing?
    ensures Fails(config, start, request, Tick(config, m, choice))
  {
    OpeningFails(config, start, start, request);
    NormalizedKeepsOrder(request.targets);
  }

  lemma {:induction false} RunFails(config: Config, start: Core, request: Request, inputs: seq<Input>)
    ensures Fails(config, start, request, RunAlone(config, start, request, inputs))
  {
    if inputs != [] {
      RunFails(config, start, request, inputs[..|inputs| - 1]);
      var m := RunAlone(config, start, request, inputs[..|inputs| - 1]);
      if inputs[|inputs| - 1].Chosen? { TickFails(config, start, request, m, inputs[|inputs| - 1].choice); }
    }
  }

  /** An operation ends in the error that the daemon does not catch exactly when the request passes
      every check of the daemon, the repository can be written, and the submitted targets have
      duplicate aliases or positions that do not count from zero. It then changes nothing. */
  lemma InternalErrorExactly(config: Config, start: Core, request: Request, inputs: seq<Input>)
    requires ValidStore(start.repository) && RunAlone(config, start, request, inputs).pc.Finished?
    ensures var m := RunAlone(config, start, request, inputs);
      && (m.pc.reply == Refused(InternalError) <==> Uncaught(config, start, request))
      && (m.pc.reply == Refused(InternalError) ==> SameCatalogue(start, m.core))
  {
    RunFails(config, start, request, inputs);
    RunPublishes(config, start, request, inputs);
  }

  /** It does happen: one country at position 1 passes every check. */
  lemma MisplacedTargetUncaught(config: Config, start: Core, expected: nat) returns (request: Request)
    requires config.selection && !config.readOnly
    ensures Uncaught(config, start, request)
  {
    var selector: Selector := map["kind" := Text("country"), "country" := Text("fr")];
    var target := StoredTarget("home", "Home", 1, selector);
    request := ReplaceTargets(config.name, expected, [target]);
    DiscoveredCountryAccepted("fr");
    assert selector == CountrySelector("fr");
    assert "home"[0] != RECOMMENDED[0] && "country"[0] != RECOMMENDED[0];
    assert !Reserved(config, target);
    assert Normalized([]) == Some([]) && [target][..0] == [];
    assert Normalized([target]).Some?;
    assert [target][0].position == 1;
  }

  // ---------------------------------------------------------------- Selectors

  predicate Revalidates(target: StoredTarget) { ValidateSelector(target.selector) == Ok(target.selector) }

  /** Normalised targets revalidate to themselves. */
  lemma NormalizedRevalidate(targets: seq<StoredTarget>)
    requires Normalized(targets).Some?
    ensures forall target :: target in Normalized(targets).value ==> Revalidates(target)
  {
    var result := Normalized(targets).value;
    forall target | target in result ensures Revalidates(target) {
      var i :| 0 <= i < |result| && result[i] == target;
      ValidationIdempotent(targets[i].selector);
    }
  }

  /** Every finished operation leaves the views in agreement with the repository; the revision grows
      by one exactly when a replacement succeeded, which it does only against the current revision. */
  lemma OperationAgrees(config: Config, start: Core, request: Request, inputs: seq<Input>)
    requires Agrees(config, start) && RunAlone(config, start, request, inputs).pc.Finished?
    ensures var m := RunAlone(config, start, request, inputs);
      Agrees(config, m.core) &&
      (if m.pc.reply.Replaced? then
        request.ReplaceTargets? && Revision(config, m.core) == Revision(config, start) + 1 == request.expected + 1 &&
          m.core.catalogue == m.pc.reply.catalogue
       else SameCatalogue(start, m.core))
  {
    RunPublishes(config, start, request, inputs);
  }

  /** The alias map of a valid catalogue holds exactly its unreserved targets, each under its alias. */
  lemma {:induction false} AliasMapExact(config: Config, targets: seq<StoredTarget>, n: nat)
    requires ValidOrder(targets) && n <= |targets|
    ensures forall i :: 0 <= i < n && !Reserved(config, targets[i]) ==>
      targets[i].alias in AliasMap(config, targets[..n]) &&
        AliasMap(config, targets[..n])[targets[i].alias] == targets[i]
    ensures forall alias :: alias in AliasMap(config, targets[..n]) ==>
      exists i :: 0 <= i < n && targets[i].alias == alias && !Reserved(config, targets[i])
  {
    if n > 0 {
      AliasMapExact(config, targets, n - 1);
      assert targets[..n][..n - 1] == targets[..n - 1];
    }
  }

  /** The service starts in agreement, whatever reserved targets the repository still holds. */
  lemma InitialAgrees(config: Config, provider: Provider, repository: Store)
    requires ValidStore(repository)
    ensures Agrees(config, Initial(config, provider, repository))
  {
  }

  // ---------------------------------------------------------------- Targets by alias

  lemma EditableOrder(config: Config, stored: TargetCatalogue)
    requires ValidOrder(stored.targets)
    ensures ValidOrder(Editable(config, stored).targets) && NoneReserved(config, Editable(config, stored).targets)
  {
    var kept, targets := Unreserved(config, stored.targets), Editable(config, stored).targets;
    var places := UnreservedInOrder(config, stored.targets);
    forall i, j | 0 <= i < j < |kept| ensures kept[i].alias != kept[j].alias {
      assert places[i] < places[j] && places[j] in places && places[i] in places;
    }
    forall i | 0 <= i < |targets| ensures !Reserved(config, targets[i]) && targets[i].alias == kept[i].alias {
      assert kept[i] in kept;
    }
  }

  /** The editable view is a catalogue again: no built-in target in it, whether by alias or by kind,
      and every other stored target, renumbered. Without a built-in target it is the stored catalogue. */
  lemma EditableExactly(config: Config, stored: TargetCatalogue)
    requires ValidOrder(stored.targets)
    ensures var targets := Editable(config, stored).targets;
      && ValidOrder(targets) && NoneReserved(config, targets)
      && (config.builtin ==> forall target :: target in targets ==> !LooksBuiltin(target))
      && (forall target :: target in stored.targets && !(config.builtin && LooksBuiltin(target)) ==>
        exists kept :: kept in targets && SameButPosition(kept, target))
      && (!config.builtin ==> targets == stored.targets)
  {
    EditableOrder(config, stored);
    forall target | target in stored.targets && !(config.builtin && LooksBuiltin(target))
      ensures exists kept :: kept in Editable(config, stored).targets && SameButPosition(kept, target)
    {
      KeptByEditing(config, stored, target);
    }
  }

  lemma KeptByEditing(config: Config, stored: TargetCatalogue, target: StoredTarget)
    requires target in stored.targets && !(config.builtin && LooksBuiltin(target))
    ensures exists kept :: kept in Editable(config, stored).targets && SameButPosition(kept, target)
  {
    var kept := Unreserved(config, stored.targets);
    assert target in kept;
    var i :| 0 <= i < |kept| && kept[i] == target;
    assert Editable(config, stored).targets[i] in Editable(config, stored).targets;
  }

  /** Named or shaped like the built-in target. */
  predicate LooksBuiltin(target: StoredTarget) {
    target.alias == "recommended" || ("kind" in target.selector && target.selector["kind"] == Text("recommended"))
  }

  /** Aliases that a request may name: those of the catalogue, and the built-in one. */
  ghost predicate Known(config: Config, core: Core, alias: string) {
    (config.builtin && alias == "recommended") || exists i :: Names(core, alias, i)
  }

  predicate Names(core: Core, alias: string, i: int) {
    0 <= i < |core.catalogue.targets| && core.catalogue.targets[i].alias == alias
  }

  /** Each target is found under its alias, and nothing else is. */
  ghost predicate MapsAliases(found: map<string, StoredTarget>, targets: seq<StoredTarget>) {
    && (forall i :: 0 <= i < |targets| ==> targets[i].alias in found && found[targets[i].alias] == targets[i])
    && forall alias :: alias in found ==> exists i :: 0 <= i < |targets| && targets[i].alias == alias
  }

  lemma UnreservedMapped(config: Config, targets: seq<StoredTarget>)
    requires ValidOrder(targets) && NoneReserved(config, targets)
    ensures MapsAliases(AliasMap(config, targets), targets)
  {
    AliasMapExact(config, targets, |targets|);
    assert targets[..|targets|] == targets;
    forall i | 0 <= i < |targets| ensures !Reserved(config, targets[i]) { assert targets[i] in targets; }
  }

  /** The views of a core that agrees: a catalogue without built-in targets, each mapped under its alias. */
  lemma ViewsExactly(config: Config, core: Core)
    requires Agrees(config, core)
    ensures NoneReserved(config, core.catalogue.targets) && MapsAliases(core.targets, core.catalogue.targets)
  {
    EditableExactly(config, Current(core.repository, config.name));
    UnreservedMapped(config, core.catalogue.targets);
  }

  /** An alias of the catalogue resolves to the catalogue's own target, the built-in alias to the
      built-in target, and any other to none. */
  lemma ResolvesExactly(config: Config, core: Core, alias: string)
    requires Agrees(config, core)
    ensures var found := Resolve(config, core.targets, alias);
      && (found.Some? <==> Known(config, core, alias))
      && (forall i :: Names(core, alias, i) ==> found == Some(core.catalogue.targets[i]))
      && (config.builtin && alias == "recommended" ==> found == Some(BUILTIN))
  {
    ViewsExactly(config, core);
    ResolvesMapped(config, core, alias);
  }

  lemma ResolvesMapped(config: Config, core: Core, alias: string)
    requires NoneReserved(config, core.catalogue.targets) && MapsAliases(core.targets, core.catalogue.targets)
    ensures var found := Resolve(config, core.targets, alias);
      && (found.Some? <==> Known(config, core, alias))
      && (forall i :: Names(core, alias, i) ==> found == Some(core.catalogue.targets[i]))
      && (config.builtin && alias == "recommended" ==> found == Some(BUILTIN))
  {
    forall i | Names(core, alias, i) ensures Resolve(config, core.targets, alias) == Some(core.catalogue.targets[i]) {
      assert !Reserved(config, core.catalogue.targets[i]);
    }
    if alias in core.targets {
      var i :| 0 <= i < |core.catalogue.targets| && core.catalogue.targets[i].alias == alias;
      assert Names(core, alias, i);
    }
  }

  lemma BuiltinTarget()
    ensures BUILTIN.alias == "recommended" && BUILTIN.selector == map["kind" := Text("recommended")]
  {
  }

  /** CONNECT dials the catalogue's target of that name, PROTECTED first enables protection for the
      same one; unknown aliases are refused. */
  lemma NamedTargetIsDialled(config: Config, core: Core, alias: string)
    requires Agrees(config, core)
    ensures forall i :: Names(core, alias, i) ==>
      && Opening(config, core, Connect(alias)) == Dial(core.catalogue.targets[i], false)
      && (config.configurable ==>
          Opening(config, core, Protected(alias)) == EnableForConnect(core.catalogue.targets[i]))
    ensures config.builtin && alias == "recommended" ==>
      && Opening(config, core, Connect(alias)) == Dial(BUILTIN, false)
      && (config.configurable ==> Opening(config, core, Protected(alias)) == EnableForConnect(BUILTIN))
    ensures !Known(config, core, alias) ==>
      && Opening(config, core, Connect(alias)) == Refuse(UnknownTarget)
      && Opening(config, core, Protected(alias)) == Refuse(UnknownTarget)
  {
    ResolvesExactly(config, core, alias);
  }

  // ---------------------------------------------------------------- Smooth runs

  /** _with_gateway_mode, mode by mode. */
  lemma GatewayModeExactly(state: VpnState, protection: Option<bool>)
    ensures GatewayMode(state, protection) == VPN <==> state == Connected
    ensures GatewayMode(state, protection) == LOCKED <==> state == Disconnected && protection == Some(true)
    ensures GatewayMode(state, protection) == DIRECT <==> state == Disconnected && protection == Some(false)
  {
  }

  /** No fault, no drop, readable reports. */
  predicate Smooth(input: Input) {
    && input.Chosen? && input.choice.fault == NoFault && !input.choice.dropInside
    && input.choice.clear && input.choice.protectionLegible && input.choice.firewallLegible
  }

  function QuietInputs(n: nat): (inputs: seq<Input>)
    ensures |inputs| == n
  {
    if n == 0 then [] else QuietInputs(n - 1) + [Chosen(QUIET)]
  }

  lemma SmoothIsQuiet(config: Config, m: Machine, input: Input)
    requires Smooth(input)
    ensures Feed(config, m, input) == Tick(config, m, QUIET)
  {
  }

  /** All smooth runs of one length end alike. */
  lemma {:induction false} SmoothRunsAgree(config: Config, core: Core, request: Request, inputs: seq<Input>)
    requires forall input :: input in inputs ==> Smooth(input)
    ensures RunAlone(config, core, request, inputs) == RunAlone(config, core, request, QuietInputs(|inputs|))
  {
    if inputs != [] {
      var earlier, last := inputs[..|inputs| - 1], inputs[|inputs| - 1];
      SmoothRunsAgree(config, core, request, earlier);
      SmoothIsQuiet(config, RunAlone(config, core, request, earlier), last);
      SmoothIsQuiet(config, RunAlone(config, core, request, earlier), Chosen(QUIET));
      FeedAllSnoc(config, Machine(core, Begin(request)), QuietInputs(|earlier|), Chosen(QUIET));
    }
  }

  /** The operation after n quiet steps. */
  function Quietly(config: Config, core: Core, request: Request, n: nat): Machine {
    if n == 0 then Machine(core, Begin(request)) else Tick(config, Quietly(config, core, request, n - 1), QUIET)
  }

  lemma {:induction false} QuietlyIsRun(config: Config, core: Core, request: Request, n: nat)
    ensures RunAlone(config, core, request, QuietInputs(n)) == Quietly(config, core, request, n)
  {
    if n > 0 {
      QuietlyIsRun(config, core, request, n - 1);
      FeedAllSnoc(config, Machine(core, Begin(request)), QuietInputs(n - 1), Chosen(QUIET));
    }
  }

  /** Each machine of the path is one quiet step after the one before, and the last is at its end. */
  ghost predicate QuietPath(config: Config, core: Core, request: Request, path: seq<Machine>) {
    && 1 <= |path| && path[0] == Machine(core, Begin(request)) && path[|path| - 1].pc.Finished?
    && forall i :: 0 < i < |path| ==> path[i] == Tick(config, path[i - 1], QUIET)
  }

  /** Nothing happens after the end of a path. */
  lemma {:induction false} PathEnds(config: Config, core: Core, request: Request, path: seq<Machine>, n: nat)
    requires QuietPath(config, core, request, path)
    ensures Quietly(config, core, request, n) == path[if n < |path| then n else |path| - 1]
  {
    if n > 0 {
      PathEnds(config, core, request, path, n - 1);
      EndStays(config, path[|path| - 1]);
    }
  }

  lemma EndStays(config: Config, m: Machine)
    requires m.pc.Finished?
    ensures Tick(config, m, QUIET) == m
  {
  }

  /** What each request does when nothing goes wrong, told without its steps: the state afterwards and the reply. */
  ghost function Promised(config: Config, core: Core, request: Request): (Core, Reply) {
    var p := core.provider;
    match request
    case Connect(alias) =>
      if !Known(config, core, alias) then (core, Refused(UnknownTarget))
      else (core.(provider := p.(connected := true)), Success(VPN))
    case Protected(alias) =>
      if !Known(config, core, alias) then (core, Refused(UnknownTarget))
      else if !config.configurable then (core, Refused(UnsupportedOperation))
      else (core.(provider := p.(connected := true, protection := true)), Success(VPN))
    case Disconnect =>
      if p.protection && p.firewall then (core.(provider := p.(connected := false)), Success(LOCKED))
      else (core, Refused(UnsafeDisconnect))
    case Lock =>
      if !config.configurable then (core, Refused(UnsupportedOperation))
      else (core.(provider := p.(connected := false, protection := true)), Success(LOCKED))
    case Direct =>
      if !config.configurable then (core, Refused(UnsupportedOperation))
      else (core.(provider := p.(connected := false, protection := false)), Success(DIRECT))
    case ReplaceTargets(provider, expected, targets) =>
      if provider != config.name then (core, Refused(UnknownProvider))
      else if !config.selection then (core, Refused(UnsupportedSelection))
      else if !Submittable(config, targets) then (core, Refused(InvalidTargets))
      else if config.readOnly then (core, Refused(MigrationRequired))
      else if !ValidOrder(targets) then (core, Refused(InternalError))
      else if expected != Revision(config, core) then (core, Refused(Conflict))
      else
        var c := TargetCatalogue(config.name, expected + 1, Normalized(targets).value);
        (Core(p, core.repository[config.name := c], c, AliasMap(config, c.targets)), Replaced(c))
  }

  /** Not empty unless there is a built-in target, none like the built-in one, all selectors valid. */
  ghost predicate Submittable(config: Config, targets: seq<StoredTarget>) {
    && (targets != [] || config.builtin)
    && (config.builtin ==> forall target :: target in targets ==> !LooksBuiltin(target))
    && forall i :: 0 <= i < |targets| ==> ValidateSelector(targets[i].selector).Ok?
  }

  /** Whatever the request, a run without faults and drops does what is promised. */
  lemma SmoothRunKeepsPromise(config: Config, core: Core, request: Request, inputs: seq<Input>)
    requires Agrees(config, core)
    requires |inputs| >= 6 && forall input :: input in inputs ==> Smooth(input)
    ensures var (after, reply) := Promised(config, core, request);
      RunAlone(config, core, request, inputs) == Machine(after, Finished(reply, false))
  {
    SmoothRunsAgree(config, core, request, inputs);
    QuietlyIsRun(config, core, request, |inputs|);
    var path := PromisedPath(config, core, request);
    PathEnds(config, core, request, path, |inputs|);
  }

  /** The path of at most six quiet steps to what is promised. */
  ghost predicate Leads(config: Config, core: Core, request: Request, path: seq<Machine>) {
    && QuietPath(config, core, request, path) && |path| <= 7
    && var (after, reply) := Promised(config, core, request);
       path[|path| - 1] == Machine(after, Finished(reply, false))
  }

  lemma PromisedPath(config: Config, core: Core, request: Request) returns (path: seq<Machine>)
    requires Agrees(config, core)
    ensures Leads(config, core, request, path)
  {
    match request
    case Connect(alias) =>
      ResolvesExactly(config, core, alias);
      path := ConnectPath(config, core, alias);
    case Protected(alias) =>
      ResolvesExactly(config, core, alias);
      path := ProtectedPath(config, core, alias);
    case Disconnect => path := DisconnectPath(config, core);
    case Lock => path := LockPath(config, core);
    case Direct => path := DirectPath(config, core);
    case ReplaceTargets(_, _, _) =>
      path := ReplacePath(config, core, request);
  }

  lemma ConnectPath(config: Config, core: Core, alias: string) returns (path: seq<Machine>)
    requires Resolve(config, core.targets, alias).Some? <==> Known(config, core, alias)
    ensures Leads(config, core, Connect(alias), path)
  {
    var start, found := Machine(core, Begin(Connect(alias))), Resolve(config, core.targets, alias);
    if found.None? { return [start, Machine(core, Refuse(UnknownTarget))]; }
    var on := core.(provider := core.provider.(connected := true));
    path := [start, Machine(core, Dial(found.value, false)), Machine(on, RememberAlias(found.value, Connected, false)),
             Machine(on, ReadAfterConnect(Connected, false)), Machine(on, Finished(Success(VPN), false))];
    assert path[1] == Tick(config, path[0], QUIET) && path[2] == Tick(config, path[1], QUIET);
    assert path[3] == Tick(config, path[2], QUIET) && path[4] == Tick(config, path[3], QUIET);
  }

  lemma ProtectedPath(config: Config, core: Core, alias: string) returns (path: seq<Machine>)
    requires Resolve(config, core.targets, alias).Some? <==> Known(config, core, alias)
    ensures Leads(config, core, Protected(alias), path)
  {
    var start, found := Machine(core, Begin(Protected(alias))), Resolve(config, core.targets, alias);
    if found.None? { return [start, Machine(core, Refuse(UnknownTarget))]; }
    if !config.configurable { return [start, Machine(core, Refuse(UnsupportedOperation))]; }
    var safe := core.(provider := core.provider.(protection := true));
    var on := core.(provider := core.provider.(connected := true, protection := true));
    path := [start, Machine(core, EnableForConnect(found.value)), Machine(safe, Dial(found.value, true)),
             Machine(on, RememberAlias(found.value, Connected, true)), Machine(on, ReadAfterConnect(Connected, true)),
             Machine(on, Finished(Success(VPN), false))];
    assert path[1] == Tick(config, path[0], QUIET) && path[2] == Tick(config, path[1], QUIET);
    assert path[3] == Tick(config, path[2], QUIET) && path[4] == Tick(config, path[3], QUIET);
    assert path[5] == Tick(config, path[4], QUIET);
  }

  lemma DisconnectPath(config: Config, core: Core) returns (path: seq<Machine>)
    ensures Leads(config, core, Disconnect, path)
  {
    var start, check := Machine(core, Begin(Disconnect)), Machine(core, CheckSettings);
    if !(core.provider.protection && core.provider.firewall) {
      return [start, check, Machine(core, Refuse(UnsafeDisconnect))];
    }
    var off := core.(provider := core.provider.(connected := false));
    path := [start, check, Machine(core, DisconnectChecked), Machine(off, ForgetAlias(Disconnected)),
             Machine(off, Finished(Success(LOCKED), false))];
    assert path[1] == Tick(config, path[0], QUIET) && path[2] == Tick(config, path[1], QUIET);
    assert path[3] == Tick(config, path[2], QUIET) && path[4] == Tick(config, path[3], QUIET);
  }

  lemma LockTicks(config: Config, core: Core, safe: Core, off: Core)
    requires safe == core.(provider := core.provider.(protection := true))
    requires off == safe.(provider := safe.provider.(connected := false))
    ensures Tick(config, Machine(core, EnableForLock), QUIET) == Machine(safe, DisconnectForLock)
    ensures Tick(config, Machine(safe, DisconnectForLock), QUIET) == Machine(off, ForgetForLock(Disconnected))
    ensures Tick(config, Machine(off, ForgetForLock(Disconnected)), QUIET) == Machine(off, ReadForLock(Disconnected))
    ensures Tick(config, Machine(off, ReadForLock(Disconnected)), QUIET) ==
      Machine(off, Finished(Success(LOCKED), false))
  {
  }

  lemma LockPath(config: Config, core: Core) returns (path: seq<Machine>)
    ensures Leads(config, core, Lock, path)
  {
    var start := Machine(core, Begin(Lock));
    if !config.configurable { return [start, Machine(core, Refuse(UnsupportedOperation))]; }
    var safe := core.(provider := core.provider.(protection := true));
    var off := safe.(provider := safe.provider.(connected := false));
    LockTicks(config, core, safe, off);
    path := [start, Machine(core, EnableForLock), Machine(safe, DisconnectForLock),
             Machine(off, ForgetForLock(Disconnected)), Machine(off, ReadForLock(Disconnected)),
             Machine(off, Finished(Success(LOCKED), false))];
    assert path[1] == Tick(config, path[0], QUIET);
  }

  lemma DirectTicks(config: Config, core: Core, bare: Core, off: Core)
    requires bare == core.(provider := core.provider.(protection := false))
    requires off == bare.(provider := bare.provider.(connected := false))
    ensures Tick(config, Machine(core, DisableForDirect), QUIET) == Machine(bare, DisconnectForDirect)
    ensures Tick(config, Machine(bare, DisconnectForDirect), QUIET) == Machine(off, ForgetForDirect(Disconnected))
    ensures Tick(config, Machine(off, ForgetForDirect(Disconnected)), QUIET) ==
      Machine(off, ReadForDirect(Disconnected))
    ensures Tick(config, Machine(off, ReadForDirect(Disconnected)), QUIET) ==
      Machine(off, Finished(Success(DIRECT), false))
  {
  }

  lemma DirectPath(config: Config, core: Core) returns (path: seq<Machine>)
    ensures Leads(config, core, Direct, path)
  {
    var start := Machine(core, Begin(Direct));
    if !config.configurable { return [start, Machine(core, Refuse(UnsupportedOperation))]; }
    var bare := core.(provider := core.provider.(protection := false));
    var off := bare.(provider := bare.provider.(connected := false));
    DirectTicks(config, core, bare, off);
    path := [start, Machine(core, DisableForDirect), Machine(bare, DisconnectForDirect),
             Machine(off, ForgetForDirect(Disconnected)), Machine(off, ReadForDirect(Disconnected)),
             Machine(off, Finished(Success(DIRECT), false))];
    assert path[1] == Tick(config, path[0], QUIET);
  }

  /** The checks before the storage, told by what is submitted. */
  lemma ReplaceOpening(config: Config, core: Core, request: Request)
    requires request.ReplaceTargets?
    ensures Opening(config, core, request) ==
      if request.provider != config.name then Refuse(UnknownProvider)
      else if !config.selection then Refuse(UnsupportedSelection)
      else if !Submittable(config, request.targets) then Refuse(InvalidTargets)
      else Storing(request.expected, Normalized(request.targets).value)
    ensures Submittable(config, request.targets) ==> Normalized(request.targets).Some?
  {
    SubmittableExactly(config, request.targets);
  }

  lemma ReplacePath(config: Config, core: Core, request: Request) returns (path: seq<Machine>)
    requires request.ReplaceTargets?
    ensures Leads(config, core, request, path)
  {
    ReplaceOpening(config, core, request);
    var opening := Opening(config, core, request);
    if opening.Finished? {
      path := [Machine(core, Begin(request)), Machine(core, opening)];
    } else {
      NormalizedKeepsOrder(request.targets);
      if config.readOnly || !ValidOrder(opening.targets) || request.expected != Revision(config, core) {
        PromisedRefusal(config, core, request);
        path := RefusedPath(config, core, request, opening.targets);
      } else {
        PromisedReplacement(config, core, request);
        path := AcceptedPath(config, core, request, opening.targets);
      }
    }
  }

  predicate Checked(config: Config, request: Request) {
    request.ReplaceTargets? && request.provider == config.name && config.selection
  }

  lemma PromisedRefusal(config: Config, core: Core, request: Request)
    requires Checked(config, request) && Submittable(config, request.targets)
    requires config.readOnly || !ValidOrder(request.targets) || request.expected != Revision(config, core)
    ensures Promised(config, core, request) ==
      (core, Refused(RefusalOf(config, request.targets)))
  {
    SubmittableExactly(config, request.targets);
  }

  function RefusalOf(config: Config, targets: seq<StoredTarget>): Code {
    if config.readOnly then MigrationRequired else if !ValidOrder(targets) then InternalError else Conflict
  }

  lemma PromisedReplacement(config: Config, core: Core, request: Request)
    requires Checked(config, request) && Submittable(config, request.targets) && !config.readOnly
    requires ValidOrder(request.targets) && Normalized(request.targets).Some?
    requires request.expected == Revision(config, core)
    ensures Promised(config, core, request) ==
      var c := TargetCatalogue(config.name, request.expected + 1, Normalized(request.targets).value);
      (Core(core.provider, core.repository[config.name := c], c, AliasMap(config, c.targets)), Replaced(c))
  {
  }

  lemma RefusedPath(config: Config, core: Core, request: Request, targets: seq<StoredTarget>)
      returns (path: seq<Machine>)
    requires request.ReplaceTargets? && Opening(config, core, request) == Storing(request.expected, targets)
    requires config.readOnly || !ValidOrder(targets) || request.expected != Revision(config, core)
    ensures QuietPath(config, core, request, path) && |path| == 3
    ensures path[2] == Machine(core, Refuse(RefusalOf(config, targets)))
  {
    var start, ready := Machine(core, Begin(request)), Machine(core, Storing(request.expected, targets));
    path := [start, ready, Machine(core, Refuse(RefusalOf(config, targets)))];
    BeginTick(config, core, request);
    StoringRefused(config, core, request.expected, targets);
  }

  lemma BeginTick(config: Config, core: Core, request: Request)
    ensures Tick(config, Machine(core, Begin(request)), QUIET) == Machine(core, Opening(config, core, request))
  {
  }

  lemma AcceptedPath(config: Config, core: Core, request: Request, targets: seq<StoredTarget>)
      returns (path: seq<Machine>)
    requires request.ReplaceTargets? && Opening(config, core, request) == Storing(request.expected, targets)
    requires !config.readOnly && ValidOrder(targets) && request.expected == Revision(config, core)
    ensures QuietPath(config, core, request, path) && |path| == 5
    ensures var c := TargetCatalogue(config.name, request.expected + 1, targets);
      var repository := core.repository[config.name := c];
      path[4] == Machine(Core(core.provider, repository, c, AliasMap(config, targets)), Finished(Replaced(c), false))
  {
    var start, ready := Machine(core, Begin(request)), Machine(core, Storing(request.expected, targets));
    var c := TargetCatalogue(config.name, request.expected + 1, targets);
    var stored := core.(repository := core.repository[config.name := c]);
    var seen := stored.(catalogue := c);
    var end := Machine(seen.(targets := AliasMap(config, c.targets)), Finished(Replaced(c), false));
    BeginTick(config, core, request);
    StoringAccepted(config, core, request.expected, targets);
    PublishTicks(config, stored, seen, c);
    path := FivePath(config, start, ready, Machine(stored, PublishCatalogue(c)), Machine(seen, PublishTargets(c)), end);
  }

  lemma FivePath(config: Config, m0: Machine, m1: Machine, m2: Machine, m3: Machine, m4: Machine)
      returns (path: seq<Machine>)
    requires Tick(config, m0, QUIET) == m1 && Tick(config, m1, QUIET) == m2
    requires Tick(config, m2, QUIET) == m3 && Tick(config, m3, QUIET) == m4
    ensures path == [m0, m1, m2, m3, m4]
    ensures forall i :: 0 < i < |path| ==> path[i] == Tick(config, path[i - 1], QUIET)
  {
    path := [m0, m1, m2, m3, m4];
  }

  lemma PublishTicks(config: Config, stored: Core, seen: Core, c: TargetCatalogue)
    requires seen == stored.(catalogue := c)
    ensures Tick(config, Machine(stored, PublishCatalogue(c)), QUIET) == Machine(seen, PublishTargets(c))
    ensures Tick(config, Machine(seen, PublishTargets(c)), QUIET) ==
      Machine(seen.(targets := AliasMap(config, c.targets)), Finished(Replaced(c), false))
  {
  }

  lemma StoringRefused(config: Config, core: Core, expected: nat, targets: seq<StoredTarget>)
    requires config.readOnly || !ValidOrder(targets) || expected != Revision(config, core)
    ensures Tick(config, Machine(core, Storing(expected, targets)), QUIET) ==
      Machine(core, Refuse(RefusalOf(config, targets)))
  {
    ReplaceExactly(core.repository, config.name, expected, targets);
  }

  lemma StoringAccepted(config: Config, core: Core, expected: nat, targets: seq<StoredTarget>)
    requires !config.readOnly && ValidOrder(targets) && expected == Revision(config, core)
    ensures var c := TargetCatalogue(config.name, expected + 1, targets);
      Tick(config, Machine(core, Storing(expected, targets)), QUIET) ==
      Machine(core.(repository := core.repository[config.name := c]), PublishCatalogue(c))
  {
    ReplaceExactly(core.repository, config.name, expected, targets);
  }

  lemma SubmittableExactly(config: Config, targets: seq<StoredTarget>)
    ensures Submittable(config, targets) <==>
      (targets != [] || config.builtin) && NoneReserved(config, targets) && Normalized(targets).Some?
  {
    forall target | target in targets ensures Reserved(config, target) <==> config.builtin && LooksBuiltin(target) {}
  }
}
