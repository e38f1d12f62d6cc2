/** ControlService of src/snarkyctl/control/daemon.py in its own form: an object that drives the
    provider and reassigns its views, proved to run exactly the steps of module Control. */
module ControlService {
  import opened Prelude
  import opened NordVpn
  import opened Catalogue
  import opened Control

  /** A provider adapter over an environment that decides every outcome. Each call reports what it
      saw: possibly a VPN drop before it, then its own choice. */
  class Adapter {
    var state: Provider

    constructor (state: Provider)
      ensures this.state == state
    {
      this.state := state;
    }

    method Perform(call: Call) returns (choice: Choice, ghost seen: seq<Input>)
      modifies this
      ensures seen == [Chosen(choice)] || seen == [Dropped, Chosen(choice)]
      ensures state == Effect(if |seen| == 2 then Drop(old(state)) else old(state), call, choice)
    {
      var drops: bool := *;
      choice := *;
      seen := [Chosen(choice)];
      if drops {
        state := Drop(state);
        seen := [Dropped, Chosen(choice)];
      }
      state := Effect(state, call, choice);
    }
  }

  /** Extending a run by one provider call. */
  lemma AfterPerform(config: Config, start: Machine, inputs: seq<Input>, m: Machine, choice: Choice, seen: seq<Input>,
      after: Provider)
    requires FeedAll(config, start, inputs) == m && CallOf(m.pc).Some?
    requires seen == [Chosen(choice)] || seen == [Dropped, Chosen(choice)]
    requires after == Effect(if |seen| == 2 then Drop(m.core.provider) else m.core.provider, CallOf(m.pc).value, choice)
    ensures FeedAll(config, start, inputs + seen) == Machine(m.core.(provider := after), AfterCall(m.pc, after, choice))
  {
    if |seen| == 2 {
      FeedAllSnoc(config, start, inputs, Dropped);
      FeedAllSnoc(config, start, inputs + [Dropped], Chosen(choice));
      assert inputs + seen == inputs + [Dropped] + [Chosen(choice)];
    } else {
      FeedAllSnoc(config, start, inputs, Chosen(choice));
    }
  }

  /** Assigning the remembered alias is the next step after a connect or disconnect call. */
  lemma NoteStep(config: Config, start: Machine, inputs: seq<Input>, m: Machine)
    requires FeedAll(config, start, inputs) == m && AfterNote(m.pc).Some?
    ensures FeedAll(config, start, inputs + [Chosen(QUIET)]) == m.(pc := AfterNote(m.pc).value)
  {
    FeedAllSnoc(config, start, inputs, Chosen(QUIET));
  }

  /** The storing step: refused by the read-only repository, else answered by the specification. */
  lemma StoreStep(config: Config, start: Machine, inputs: seq<Input>, core: Core, expected: nat,
      targets: seq<StoredTarget>)
    requires FeedAll(config, start, inputs) == Machine(core, Storing(expected, targets))
    ensures var m, stored := FeedAll(config, start, inputs + [Chosen(QUIET)]),
      Replace(core.repository, config.name, expected, targets);
      if config.readOnly then m == Machine(core, Refuse(MigrationRequired))
      else match stored.1
           case Ok(catalogue) => m == Machine(core.(repository := stored.0), PublishCatalogue(catalogue))
           case Err(error) => m == Machine(core, Refuse(if error == ValidationFailed then InternalError else Conflict))
  {
    FeedAllSnoc(config, start, inputs, Chosen(QUIET));
  }

  const FAILING := QUIET.(fault := Before)

  lemma StoreFails(config: Config, start: Machine, inputs: seq<Input>, core: Core, expected: nat,
      targets: seq<StoredTarget>)
    requires FeedAll(config, start, inputs) == Machine(core, Storing(expected, targets))
    requires !config.readOnly && ValidOrder(targets)
    ensures FeedAll(config, start, inputs + [Chosen(FAILING)]) == Machine(core, Refuse(StorageError))
  {
    FeedAllSnoc(config, start, inputs, Chosen(FAILING));
  }

  lemma FirstStep(config: Config, core: Core, request: Request)
    ensures FeedAll(config, Machine(core, Begin(request)), [Chosen(QUIET)]) ==
      Machine(core, Opening(config, core, request))
  {
    FeedAllSnoc(config, Machine(core, Begin(request)), [], Chosen(QUIET));
    assert [] + [Chosen(QUIET)] == [Chosen(QUIET)];
  }

  /** The alias to remember once the operation has dialled or disconnected. */
  function AliasOf(config: Config, core: Core, request: Request): Option<string> {
    if request.Protected? || request.Connect? then
      var target := Resolve(config, core.targets, request.alias);
      if target.Some? then Some(target.value.alias) else None
    else None
  }

  /** It is the alias that the request names. */
  lemma AliasIsNamed(config: Config, core: Core, alias: string)
    requires Agrees(config, core) && Known(config, core, alias)
    ensures AliasOf(config, core, Connect(alias)) == AliasOf(config, core, Protected(alias)) == Some(alias)
  {
    ResolvesExactly(config, core, alias);
    BuiltinTarget();
    assert forall i :: Names(core, alias, i) ==> core.catalogue.targets[i].alias == alias;
  }

  /** The remembered alias changes with every success of a mode change, and may have changed when one
      is refused late. */
  predicate AliasFollows(config: Config, core: Core, request: Request, reply: Reply, before: Option<string>,
      after: Option<string>)
  {
    && (reply.Success? ==> after == AliasOf(config, core, request))
    && (reply.Refused? ==> after == before || after == AliasOf(config, core, request))
    && (reply.Replaced? ==> after == before)
  }

  class Service {
    const config: Config
    const provider: Adapter
    const repository: MemoryRepository
    var catalogue: TargetCatalogue
    var targets: map<string, StoredTarget>
    var currentAlias: Option<string>
    var locked: bool

    constructor (config: Config, provider: Adapter, repository: MemoryRepository)
      ensures this.config == config && this.provider == provider && this.repository == repository
      ensures GetCore() == Initial(config, provider.state, repository.catalogues) && !locked && currentAlias == None
    {
      this.config, this.provider, this.repository := config, provider, repository;
      var stored := repository.GetCatalogue(config.name);
      var editable := Editable(config, stored);
      catalogue := editable;
      targets := AliasMap(config, editable.targets);
      currentAlias, locked := None, false;
    }

    function GetCore(): Core
      reads this, provider, repository
    {
      Core(provider.state, repository.catalogues, catalogue, targets)
    }

    /** dispatch for a mutation: refused while the lock is held, otherwise run under it. The lock is
        free again whatever the outcome, and outcome and effects are those of the steps. */
    method Mutate(request: Request) returns (reply: Option<Reply>, ghost stuck: bool, ghost inputs: seq<Input>)
      modifies this, provider, repository
      ensures locked == old(locked)
      ensures old(locked) ==> reply == None && GetCore() == old(GetCore()) && currentAlias == old(currentAlias)
      ensures !old(locked) ==> reply.Some?
      ensures !old(locked) ==>
        RunAlone(config, old(GetCore()), request, inputs) == Machine(GetCore(), Finished(reply.value, stuck))
      ensures !old(locked) ==>
        AliasFollows(config, old(GetCore()), request, reply.value, old(currentAlias), currentAlias)
    {
      if locked { return None, false, []; }
      locked := true;
      var answer: Reply;
      match request {
        case ReplaceTargets(_, expected, submitted) =>
          stuck := false;
          answer, inputs := DoReplace(request);
        case Direct =>
          answer, stuck, inputs := DoDirect(request);
        case _ =>
          stuck := false;
          answer, inputs := DoModeChange(request);
      }
      locked := false;
      reply := Some(answer);
    }

    /** One provider call in the course of an operation. */
    method Ask(ghost start: Machine, ghost inputs: seq<Input>, ghost pc: PC, call: Call)
        returns (choice: Choice, ghost more: seq<Input>)
      requires CallOf(pc) == Some(call) && FeedAll(config, start, inputs) == Machine(GetCore(), pc)
      modifies provider
      ensures FeedAll(config, start, more) == Machine(GetCore(), AfterCall(pc, provider.state, choice))
    {
      ghost var m, seen := Machine(GetCore(), pc), [];
      choice, seen := provider.Perform(call);
      AfterPerform(config, start, inputs, m, choice, seen, provider.state);
      more := inputs + seen;
    }

    /** Assign the remembered alias. */
    method Remember(ghost start: Machine, ghost inputs: seq<Input>, ghost pc: PC, alias: Option<string>)
        returns (ghost more: seq<Input>)
      requires FeedAll(config, start, inputs) == Machine(GetCore(), pc)
      requires AfterNote(pc).Some? && NotedAlias(pc) == alias
      modifies this`currentAlias
      ensures FeedAll(config, start, more) == Machine(GetCore(), AfterNote(pc).value)
      ensures currentAlias == alias
    {
      NoteStep(config, start, inputs, Machine(GetCore(), pc));
      more := inputs + [Chosen(QUIET)];
      currentAlias := alias;
    }

    /** PROTECTED, CONNECT, DISCONNECT and LOCK. */
    method DoModeChange(request: Request) returns (reply: Reply, ghost inputs: seq<Input>)
      requires !request.ReplaceTargets? && request != Direct
      modifies this`currentAlias, provider
      ensures RunAlone(config, old(GetCore()), request, inputs) == Machine(GetCore(), Finished(reply, false))
      ensures AliasFollows(config, old(GetCore()), request, reply, old(currentAlias), currentAlias)
    {
      ghost var start := Machine(GetCore(), Begin(request));
      FirstStep(config, GetCore(), request);
      inputs := [Chosen(QUIET)];
      match request {
        case Protected(alias) =>
          var target := Resolve(config, targets, alias);
          if target.None? { return Refused(UnknownTarget), inputs; }
          if !config.configurable { return Refused(UnsupportedOperation), inputs; }
          var choice;
          choice, inputs := Ask(start, inputs, EnableForConnect(target.value), SetProtection(true));
          if Raised(choice) { return Refused(ProviderFailed), inputs; }
          if ProtectionReport(provider.state, choice) != Some(true) { return Refused(ProtectionNotEnabled), inputs; }
          reply, inputs := DialAndRead(start, inputs, target.value, true);
        case Connect(alias) =>
          var target := Resolve(config, targets, alias);
          if target.None? { return Refused(UnknownTarget), inputs; }
          reply, inputs := DialAndRead(start, inputs, target.value, false);
        case Disconnect =>
          reply, inputs := DisconnectSafely(start, inputs);
        case Lock =>
          if !config.configurable { return Refused(UnsupportedOperation), inputs; }
          reply, inputs := LockGateway(start, inputs);
      }
    }

    /** DISCONNECT: only when protection and firewall are verified on. */
    method DisconnectSafely(ghost start: Machine, ghost inputs: seq<Input>)
        returns (reply: Reply, ghost more: seq<Input>)
      requires FeedAll(config, start, inputs) == Machine(GetCore(), CheckSettings)
      modifies this`currentAlias, provider
      ensures FeedAll(config, start, more) == Machine(GetCore(), Finished(reply, false)) && !reply.Replaced?
      ensures currentAlias == if reply.Success? then None else old(currentAlias)
    {
      var choice;
      choice, more := Ask(start, inputs, CheckSettings, SettingsCall);
      if Raised(choice) { return Refused(ProviderFailed), more; }
      var protection, firewall := ProtectionReport(provider.state, choice), FirewallReport(provider.state, choice);
      if protection != Some(true) || firewall != Some(true) { return Refused(UnsafeDisconnect), more; }
      choice, more := Ask(start, more, DisconnectChecked, DisconnectCall);
      if Raised(choice) { return Refused(ProviderFailed), more; }
      var state := StateReport(provider.state, choice);
      more := Remember(start, more, ForgetAlias(state), None);
      return Success(GatewayMode(state, Some(true))), more;
    }

    /** LOCK: protection first, then the disconnect, then the check of what was reached. */
    method LockGateway(ghost start: Machine, ghost inputs: seq<Input>) returns (reply: Reply, ghost more: seq<Input>)
      requires FeedAll(config, start, inputs) == Machine(GetCore(), EnableForLock)
      modifies this`currentAlias, provider
      ensures FeedAll(config, start, more) == Machine(GetCore(), Finished(reply, false)) && !reply.Replaced?
      ensures currentAlias == None || (reply.Refused? && currentAlias == old(currentAlias))
    {
      var choice;
      choice, more := Ask(start, inputs, EnableForLock, SetProtection(true));
      if Raised(choice) { return Refused(ProviderFailed), more; }
      if ProtectionReport(provider.state, choice) != Some(true) { return Refused(ProtectionNotEnabled), more; }
      choice, more := Ask(start, more, DisconnectForLock, DisconnectCall);
      if Raised(choice) { return Refused(ProviderFailed), more; }
      var state := StateReport(provider.state, choice);
      more := Remember(start, more, ForgetForLock(state), None);
      choice, more := Ask(start, more, ReadForLock(state), SettingsCall);
      if Raised(choice) { return Refused(ProviderFailed), more; }
      if GatewayMode(state, ProtectionReport(provider.state, choice)) != LOCKED {
        return Refused(ModeTransitionFailed), more;
      }
      return Success(LOCKED), more;
    }

    /** connect_stored, then the settings; CONNECT tolerates unreadable settings. */
    method DialAndRead(ghost start: Machine, ghost inputs: seq<Input>, target: StoredTarget, strict: bool)
        returns (reply: Reply, ghost more: seq<Input>)
      requires FeedAll(config, start, inputs) == Machine(GetCore(), Dial(target, strict))
      modifies this`currentAlias, provider
      ensures FeedAll(config, start, more) == Machine(GetCore(), Finished(reply, false))
      ensures reply.Success? ==> currentAlias == Some(target.alias)
      ensures reply.Success? ||
        (reply.Refused? && (currentAlias == old(currentAlias) || currentAlias == Some(target.alias)))
    {
      var choice;
      choice, more := Ask(start, inputs, Dial(target, strict), ConnectCall);
      if Raised(choice) { return Refused(ProviderFailed), more; }
      var state := StateReport(provider.state, choice);
      more := Remember(start, more, RememberAlias(target, state, strict), Some(target.alias));
      choice, more := Ask(start, more, ReadAfterConnect(state, strict), SettingsCall);
      if Raised(choice) && strict { return Refused(ProviderFailed), more; }
      var mode := GatewayMode(state, if Raised(choice) then None else ProtectionReport(provider.state, choice));
      if strict && mode != VPN { return Refused(ModeTransitionFailed), more; }
      return Success(mode), more;
    }

    /** DIRECT: any provider error restores leak protection before it is reported. */
    method DoDirect(request: Request) returns (reply: Reply, ghost stuck: bool, ghost inputs: seq<Input>)
      requires request == Direct
      modifies this`currentAlias, provider
      ensures RunAlone(config, old(GetCore()), request, inputs) == Machine(GetCore(), Finished(reply, stuck))
      ensures AliasFollows(config, old(GetCore()), request, reply, old(currentAlias), currentAlias)
    {
      ghost var start := Machine(GetCore(), Begin(request));
      FirstStep(config, GetCore(), request);
      inputs := [Chosen(QUIET)];
      stuck := false;
      if !config.configurable { return Refused(UnsupportedOperation), false, inputs; }
      var code: Option<Code>;
      code, inputs := TryDirect(start, inputs);
      if code.None? { return Success(DIRECT), false, inputs; }
      var choice;
      choice, inputs := Ask(start, inputs, RestoreAfterDirect(code.value), SetProtection(true));
      return Refused(code.value), !TakesEffect(choice), inputs;
    }

    /** The body of DIRECT's try block: None, or the error it raises. */
    method TryDirect(ghost start: Machine, ghost inputs: seq<Input>)
        returns (code: Option<Code>, ghost more: seq<Input>)
      requires FeedAll(config, start, inputs) == Machine(GetCore(), DisableForDirect)
      modifies this`currentAlias, provider
      ensures FeedAll(config, start, more) ==
        Machine(GetCore(), if code.None? then Finished(Success(DIRECT), false) else RestoreAfterDirect(code.value))
      ensures currentAlias == None || (code.Some? && currentAlias == old(currentAlias))
    {
      var choice;
      choice, more := Ask(start, inputs, DisableForDirect, SetProtection(false));
      if Raised(choice) { return Some(ProviderFailed), more; }
      if ProtectionReport(provider.state, choice) != Some(false) { return Some(ProtectionNotDisabled), more; }
      choice, more := Ask(start, more, DisconnectForDirect, DisconnectCall);
      if Raised(choice) { return Some(ProviderFailed), more; }
      var state := StateReport(provider.state, choice);
      more := Remember(start, more, ForgetForDirect(state), None);
      choice, more := Ask(start, more, ReadForDirect(state), SettingsCall);
      if Raised(choice) { return Some(ProviderFailed), more; }
      if GatewayMode(state, ProtectionReport(provider.state, choice)) != DIRECT {
        return Some(ModeTransitionFailed), more;
      }
      return None, more;
    }

    /** TARGET_CATALOG_REPLACE, here over the in-memory repository: check, validate every selector,
        replace, then publish the catalogue and the alias map. */
    method DoReplace(request: Request) returns (reply: Reply, ghost inputs: seq<Input>)
      requires request.ReplaceTargets?
      modifies this`catalogue, this`targets, repository
      ensures RunAlone(config, old(GetCore()), request, inputs) == Machine(GetCore(), Finished(reply, false))
      ensures !reply.Success?
    {
      ghost var start := Machine(GetCore(), Begin(request));
      FirstStep(config, GetCore(), request);
      inputs := [Chosen(QUIET)];
      if request.provider != config.name { return Refused(UnknownProvider), inputs; }
      if !config.selection { return Refused(UnsupportedSelection), inputs; }
      if request.targets == [] && !config.builtin { return Refused(InvalidTargets), inputs; }
      if !NoneReserved(config, request.targets) { return Refused(InvalidTargets), inputs; }
      var normalized := Normalized(request.targets);
      if normalized.None? { return Refused(InvalidTargets), inputs; }
      reply, inputs := StoreTargets(start, inputs, request.expected, normalized.value);
    }

    /** Replace the stored catalogue, then publish it. */
    method StoreTargets(ghost start: Machine, ghost inputs: seq<Input>, expected: nat, submitted: seq<StoredTarget>)
        returns (reply: Reply, ghost more: seq<Input>)
      requires FeedAll(config, start, inputs) == Machine(GetCore(), Storing(expected, submitted))
      modifies this`catalogue, this`targets, repository
      ensures FeedAll(config, start, more) == Machine(GetCore(), Finished(reply, false))
      ensures !reply.Success?
    {
      StoreStep(config, start, inputs, GetCore(), expected, submitted);
      more := inputs + [Chosen(QUIET)];
      if config.readOnly { return Refused(MigrationRequired), more; }
      var works: bool := *;
      if !works && ValidOrder(submitted) {
        StoreFails(config, start, inputs, GetCore(), expected, submitted);
        return Refused(StorageError), inputs + [Chosen(FAILING)];
      }
      var answer := repository.ReplaceCatalogue(config.name, expected, submitted);
      if answer == Err(ValidationFailed) { return Refused(InternalError), more; }
      if answer.Err? { return Refused(Conflict), more; }
      more := Publish(start, more, answer.value);
      return Replaced(answer.value), more;
    }

    /** Both views follow the stored catalogue. */
    method Publish(ghost start: Machine, ghost inputs: seq<Input>, stored: TargetCatalogue)
        returns (ghost more: seq<Input>)
      requires FeedAll(config, start, inputs) == Machine(GetCore(), PublishCatalogue(stored))
      modifies this`catalogue, this`targets
      ensures FeedAll(config, start, more) == Machine(GetCore(), Finished(Replaced(stored), false))
    {
      FeedAllSnoc(config, start, inputs, Chosen(QUIET));
      more := inputs + [Chosen(QUIET)];
      catalogue := stored;
      FeedAllSnoc(config, start, more, Chosen(QUIET));
      more := more + [Chosen(QUIET)];
      targets := AliasMap(config, catalogue.targets);
    }
  }
}
