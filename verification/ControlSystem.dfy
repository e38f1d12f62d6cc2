/** Any number of worker threads of src/snarkyctl/control/daemon.py around one operation lock. */
module ControlSystem {
  import opened Prelude
  import opened NordVpn
  import opened Catalogue
  import opened Control

  type Thread = nat

  /** What a worker is doing. STATUS reads the provider and later clears the remembered alias,
      without the lock; SawStatus is the moment in between. */
  datatype Local = Idle | Operating(pc: PC) | SawStatus(state: VpnState)

  /** What happened, in order: VPN drops outside any operation, rejected requests, and completed
      operations with the environment's decisions while they held the lock. */
  datatype Entry =
    | Outage
    | Rejected(thread: Thread, request: Request)
    | Served(thread: Thread, request: Request, inputs: seq<Input>, reply: Reply, stuck: bool)

  /** The operation that holds the lock and what it has seen so far. */
  datatype Open = Open(thread: Thread, request: Request, inputs: seq<Input>)

  /** `history`, `open`, `taken`, `versions`, `dialled` and `earlier` only record; no step depends on
      them. `taken` lists the lock acquisitions in order, `versions` the editable catalogues committed
      so far, starting with the first, `dialled` and `earlier` the targets of the last connect call
      that returned and of the one before it. */
  datatype System = System(
    core: Core, lock: Option<Thread>, locals: map<Thread, Local>, alias: Option<string>,
    history: seq<Entry>, open: Option<Open>, taken: seq<(Thread, Request)>, versions: seq<TargetCatalogue>,
    dialled: Option<string>, earlier: Option<string>)

  datatype Event =
    | VpnDrops
    | Submit(thread: Thread, request: Request)
    | Advance(thread: Thread, choice: Choice)
    | Release(thread: Thread)
    | ReadStatus(thread: Thread, choice: Choice)
    | FinishStatus(thread: Thread)

  function LocalOf(s: System, thread: Thread): Local {
    if thread in s.locals then s.locals[thread] else Idle
  }

  /** The remembered alias changes at the assignment that follows a connect or disconnect call. */
  function AliasAfter(alias: Option<string>, pc: PC): Option<string> {
    if AfterNote(pc).Some? then NotedAlias(pc) else alias
  }

  /** This step makes a connect call that returns. */
  predicate Dials(pc: PC, choice: Choice) { pc.Dial? && !Raised(choice) }

  function Noted(open: Option<Open>, input: Input): Option<Open> {
    if open.None? then None else Some(open.value.(inputs := open.value.inputs + [input]))
  }

  /** One event. An event that is not possible changes nothing. The lock is tried without blocking;
      holding it is not a condition of stepping on, which is why mutual exclusion is a theorem. */
  function Next(config: Config, s: System, event: Event): System {
    match event
    case VpnDrops =>
      s.(core := s.core.(provider := Drop(s.core.provider)),
         history := if s.open.None? then s.history + [Outage] else s.history,
         open := Noted(s.open, Dropped))
    case Submit(thread, request) =>
      if LocalOf(s, thread) != Idle then s
      else if s.lock.Some? then s.(history := s.history + [Rejected(thread, request)])
      else s.(lock := Some(thread), locals := s.locals[thread := Operating(Begin(request))],
               open := Some(Open(thread, request, [])),
               taken := s.taken + [(thread, request)])
    case Advance(thread, choice) =>
      if !LocalOf(s, thread).Operating? || LocalOf(s, thread).pc.Finished? then s
      else
        var pc := LocalOf(s, thread).pc;
        var m := Tick(config, Machine(s.core, pc), choice);
        s.(core := m.core, locals := s.locals[thread := Operating(m.pc)],
           open := Noted(s.open, Chosen(choice)),
           alias := AliasAfter(s.alias, pc),
           dialled := if Dials(pc, choice) then Some(pc.target.alias) else s.dialled,
           earlier := if Dials(pc, choice) then s.dialled else s.earlier,
           versions := if m.pc.PublishCatalogue? then s.versions + [m.pc.catalogue] else s.versions)
    case Release(thread) =>
      if !LocalOf(s, thread).Operating? || !LocalOf(s, thread).pc.Finished? then s
      else
        var pc := LocalOf(s, thread).pc;
        s.(lock := None, locals := s.locals[thread := Idle], open := None,
           history := if s.open.None? then s.history
                      else s.history + [Served(thread, s.open.value.request, s.open.value.inputs, pc.reply, pc.stuck)])
    case ReadStatus(thread, choice) =>
      if LocalOf(s, thread) != Idle || Raised(choice) then s
      else s.(locals := s.locals[thread := SawStatus(StateReport(s.core.provider, choice))])
    case FinishStatus(thread) =>
      if !LocalOf(s, thread).SawStatus? then s
      else s.(locals := s.locals[thread := Idle],
              alias := if LocalOf(s, thread).state == Disconnected then None else s.alias)
  }

  function Start(config: Config, provider: Provider, repository: Store): System {
    var core := Initial(config, provider, repository);
    System(core, None, map[], None, [], None, [], [core.catalogue], None, None)
  }

  function Run(config: Config, s: System, events: seq<Event>): System {
    if events == [] then s else Next(config, Run(config, s, events[..|events| - 1]), events[|events| - 1])
  }

  // ---------------------------------------------------------------- Mutual exclusion and serial order

  /** A history replayed one operation at a time, from an idle core. None when some recorded reply
      is not the one that the operation run alone would give. */
  function Replay(config: Config, core: Core, history: seq<Entry>): Option<Core> {
    if history == [] then Some(core)
    else
      var before := Replay(config, core, history[..|history| - 1]);
      if before.None? then None
      else
        match history[|history| - 1]
        case Outage => Some(before.value.(provider := Drop(before.value.provider)))
        case Rejected(_, _) => before
        case Served(_, request, inputs, reply, stuck) =>
          var m := RunAlone(config, before.value, request, inputs);
          if m.pc == Finished(reply, stuck) then Some(m.core) else None
  }

  /** The completed operations of a history, in order. */
  function Operations(history: seq<Entry>): seq<(Thread, Request)> {
    if history == [] then []
    else
      var last := history[|history| - 1];
      Operations(history[..|history| - 1]) + (if last.Served? then [(last.thread, last.request)] else [])
  }

  lemma OperationsSnoc(history: seq<Entry>, entry: Entry)
    ensures Operations(history + [entry]) ==
      Operations(history) + (if entry.Served? then [(entry.thread, entry.request)] else [])
  {
    assert (history + [entry])[..|history|] == history;
  }

  /** At most the lock holder operates; operations are in the order of lock acquisition; the present
      core is the replayed history, followed by the open operation run alone as far as it got. */
  ghost predicate Serial(config: Config, core0: Core, s: System) {
    && (forall thread: Thread :: LocalOf(s, thread).Operating? ==> s.lock == Some(thread))
    && (s.open.Some? <==> s.lock.Some?)
    && s.taken == Operations(s.history) + (if s.open.Some? then [(s.open.value.thread, s.open.value.request)] else [])
    && var idle := Replay(config, core0, s.history);
    && idle.Some?
    && (s.lock.None? ==> s.core == idle.value)
    && (s.lock.Some? ==>
      && s.open.value.thread == s.lock.value
      && LocalOf(s, s.lock.value).Operating?
      && RunAlone(config, idle.value, s.open.value.request, s.open.value.inputs) ==
          Machine(s.core, LocalOf(s, s.lock.value).pc))
  }

  lemma RunAloneSnoc(config: Config, core: Core, request: Request, inputs: seq<Input>, input: Input)
    ensures RunAlone(config, core, request, inputs + [input]) ==
      Feed(config, RunAlone(config, core, request, inputs), input)
  {
    assert (inputs + [input])[..|inputs|] == inputs;
  }

  lemma ReplaySnoc(config: Config, core: Core, history: seq<Entry>, entry: Entry)
    requires Replay(config, core, history).Some?
    ensures var before := Replay(config, core, history).value;
      Replay(config, core, history + [entry]) ==
      match entry
      case Outage => Some(before.(provider := Drop(before.provider)))
      case Rejected(_, _) => Some(before)
      case Served(_, request, inputs, reply, stuck) =>
        if RunAlone(config, before, request, inputs).pc == Finished(reply, stuck)
        then Some(RunAlone(config, before, request, inputs).core) else None
  {
    assert (history + [entry])[..|history|] == history;
  }

  lemma DropSerial(config: Config, core0: Core, s: System)
    requires Serial(config, core0, s)
    ensures Serial(config, core0, Next(config, s, VpnDrops))
  {
    var idle := Replay(config, core0, s.history).value;
    if s.lock.None? {
      ReplaySnoc(config, core0, s.history, Outage);
      OperationsSnoc(s.history, Outage);
    } else {
      RunAloneSnoc(config, idle, s.open.value.request, s.open.value.inputs, Dropped);
    }
  }

  lemma SubmitSerial(config: Config, core0: Core, s: System, thread: Thread, request: Request)
    requires Serial(config, core0, s)
    ensures Serial(config, core0, Next(config, s, Submit(thread, request)))
  {
    ReplaySnoc(config, core0, s.history, Rejected(thread, request));
    OperationsSnoc(s.history, Rejected(thread, request));
  }

  lemma AdvanceSerial(config: Config, core0: Core, s: System, thread: Thread, choice: Choice)
    requires Serial(config, core0, s)
    ensures Serial(config, core0, Next(config, s, Advance(thread, choice)))
  {
    if LocalOf(s, thread).Operating? {
      var idle := Replay(config, core0, s.history).value;
      RunAloneSnoc(config, idle, s.open.value.request, s.open.value.inputs, Chosen(choice));
    }
  }

  lemma ReleaseSerial(config: Config, core0: Core, s: System, thread: Thread)
    requires Serial(config, core0, s)
    ensures Serial(config, core0, Next(config, s, Release(thread)))
  {
    if LocalOf(s, thread).Operating? && LocalOf(s, thread).pc.Finished? {
      var pc := LocalOf(s, thread).pc;
      var entry := Served(thread, s.open.value.request, s.open.value.inputs, pc.reply, pc.stuck);
      ReplaySnoc(config, core0, s.history, entry);
      OperationsSnoc(s.history, entry);
    }
  }

  lemma NextSerial(config: Config, core0: Core, s: System, event: Event)
    requires Serial(config, core0, s)
    ensures Serial(config, core0, Next(config, s, event))
  {
    match event
    case VpnDrops => DropSerial(config, core0, s);
    case Submit(thread, request) => SubmitSerial(config, core0, s, thread, request);
    case Advance(thread, choice) => AdvanceSerial(config, core0, s, thread, choice);
    case Release(thread) => ReleaseSerial(config, core0, s, thread);
    case ReadStatus(_, _) =>
    case FinishStatus(_) =>
  }

  /** Serialisability: in every interleaving of any number of workers with STATUS requests, rejected
      requests and VPN drops, at most one worker operates, and whenever the lock is free the
      provider, the repository, both catalogue views and all replies are those of the same
      operations run one at a time in the order in which they took the lock. */
  lemma {:induction false} Serialisable(config: Config, provider: Provider, repository: Store, events: seq<Event>)
    ensures Serial(config, Start(config, provider, repository).core,
      Run(config, Start(config, provider, repository), events))
  {
    var s0 := Start(config, provider, repository);
    if events != [] {
      Serialisable(config, provider, repository, events[..|events| - 1]);
      NextSerial(config, s0.core, Run(config, s0, events[..|events| - 1]), events[|events| - 1]);
    }
  }

  /** A history with its rejections removed. */
  function WithoutRejections(history: seq<Entry>): seq<Entry> {
    if history == [] then []
    else
      var last := history[|history| - 1];
      WithoutRejections(history[..|history| - 1]) + (if last.Rejected? then [] else [last])
  }

  lemma WithoutRejectionsSnoc(history: seq<Entry>, entry: Entry)
    ensures WithoutRejections(history + [entry]) ==
      WithoutRejections(history) + (if entry.Rejected? then [] else [entry])
  {
    assert (history + [entry])[..|history|] == history;
  }

  /** The event is a request of an idle worker while the lock is held. */
  predicate IsRejected(s: System, event: Event) {
    event.Submit? && LocalOf(s, event.thread) == Idle && s.lock.Some?
  }

  /** The events without those requests that were rejected in the run. */
  function Kept(config: Config, s: System, events: seq<Event>): seq<Event> {
    if events == [] then []
    else
      var earlier, last := events[..|events| - 1], events[|events| - 1];
      Kept(config, s, earlier) + (if IsRejected(Run(config, s, earlier), last) then [] else [last])
  }

  /** The system with rejections taken out of its record. */
  function Erased(s: System): System { s.(history := WithoutRejections(s.history)) }

  lemma RejectionErased(config: Config, s: System, event: Event)
    requires IsRejected(s, event)
    ensures Erased(Next(config, s, event)) == Erased(s)
  {
    WithoutRejectionsSnoc(s.history, Rejected(event.thread, event.request));
  }

  lemma OtherErased(config: Config, s: System, event: Event)
    requires !IsRejected(s, event)
    ensures Erased(Next(config, s, event)) == Next(config, Erased(s), event)
  {
    match event
    case VpnDrops => WithoutRejectionsSnoc(s.history, Outage);
    case Release(thread) =>
      if LocalOf(s, thread).Operating? && LocalOf(s, thread).pc.Finished? && s.open.Some? {
        var pc := LocalOf(s, thread).pc;
        WithoutRejectionsSnoc(s.history, Served(thread, s.open.value.request, s.open.value.inputs, pc.reply, pc.stuck));
      }
    case _ =>
  }

  /** An OPERATION_IN_PROGRESS rejection has no effect: without all the rejected requests, the run
      goes through with the same provider, repository, views, lock, workers, alias and records, and
      the same history but for the rejections. */
  lemma {:induction false} RejectionsHaveNoEffect(config: Config, provider: Provider, repository: Store,
      events: seq<Event>)
    ensures var s0 := Start(config, provider, repository);
      Run(config, s0, Kept(config, s0, events)) == Erased(Run(config, s0, events))
  {
    var s0 := Start(config, provider, repository);
    if events != [] {
      var earlier, last := events[..|events| - 1], events[|events| - 1];
      RejectionsHaveNoEffect(config, provider, repository, earlier);
      var s, kept := Run(config, s0, earlier), Kept(config, s0, earlier);
      if IsRejected(s, last) {
        RejectionErased(config, s, last);
        assert kept == Kept(config, s0, events);
      } else {
        OtherErased(config, s, last);
        RunSnoc(config, s0, kept, last);
      }
    }
  }

  lemma RunSnoc(config: Config, s: System, events: seq<Event>, event: Event)
    ensures Run(config, s, events + [event]) == Next(config, Run(config, s, events), event)
  {
    assert (events + [event])[..|events|] == events;
  }

  /** The thread takes its steps with the given decisions. */
  function Steady(config: Config, s: System, thread: Thread, choices: seq<Choice>): System {
    if choices == [] then s
    else
      var before := Steady(config, s, thread, choices[..|choices| - 1]);
      Next(config, before, Advance(thread, choices[|choices| - 1]))
  }

  lemma AdvanceShrinks(config: Config, s: System, thread: Thread, choice: Choice)
    requires LocalOf(s, thread).Operating?
    ensures var before, after := LocalOf(s, thread), LocalOf(Next(config, s, Advance(thread, choice)), thread);
      after.Operating? &&
        (if before.pc.Finished? then after == before else Remaining(after.pc) < Remaining(before.pc) <= 6)
  {
    if !LocalOf(s, thread).pc.Finished? { TickShrinks(config, Machine(s.core, LocalOf(s, thread).pc), choice); }
  }

  lemma {:induction false} SteadyFinishes(config: Config, s: System, thread: Thread, choices: seq<Choice>)
    requires LocalOf(s, thread).Operating?
    ensures var local := LocalOf(Steady(config, s, thread, choices), thread);
      local.Operating? && (local.pc.Finished? || Remaining(local.pc) + |choices| <= 6)
  {
    if choices != [] {
      var earlier := choices[..|choices| - 1];
      SteadyFinishes(config, s, thread, earlier);
      AdvanceShrinks(config, Steady(config, s, thread, earlier), thread, choices[|choices| - 1]);
    } else if !LocalOf(s, thread).pc.Finished? {
      TickShrinks(config, Machine(s.core, LocalOf(s, thread).pc), QUIET);
    }
  }

  lemma ReleaseFrees(config: Config, s: System, thread: Thread)
    requires LocalOf(s, thread).Operating? && LocalOf(s, thread).pc.Finished?
    ensures Next(config, s, Release(thread)).lock == None
  {
  }

  /** No operation keeps the lock: from any reachable state the holder's own next six steps, whatever
      they meet, followed by its release free the lock. */
  lemma LockComesFree(config: Config, provider: Provider, repository: Store, events: seq<Event>, thread: Thread,
      choices: seq<Choice>)
    requires var s := Run(config, Start(config, provider, repository), events); s.lock == Some(thread)
    requires |choices| == 6
    ensures var s := Run(config, Start(config, provider, repository), events);
      Next(config, Steady(config, s, thread, choices), Release(thread)).lock == None
  {
    var s := Run(config, Start(config, provider, repository), events);
    Serialisable(config, provider, repository, events);
    SteadyFinishes(config, s, thread, choices);
    var end := Steady(config, s, thread, choices);
    if !LocalOf(end, thread).pc.Finished? { UnfinishedSteps(LocalOf(end, thread).pc); }
    ReleaseFrees(config, end, thread);
  }

  // ---------------------------------------------------------------- Fail-closed

  /** The last operation that changed leak protection. */
  function LastChange(config: Config, core: Core, history: seq<Entry>): Option<Entry>
    requires Replay(config, core, history).Some?
  {
    if history == [] then None
    else
      var earlier := history[..|history| - 1];
      var before, after := Replay(config, core, earlier).value.provider, Replay(config, core, history).value.provider;
      if before.protection != after.protection
      then Some(history[|history| - 1]) else LastChange(config, core, earlier)
  }

  predicate Exposing(entry: Entry) {
    entry.Served? && entry.request == Direct && (entry.reply == Success(DIRECT) || entry.stuck)
  }

  lemma {:induction false} ReplayFailsClosed(config: Config, core: Core, history: seq<Entry>)
    requires core.provider.protection && Replay(config, core, history).Some?
    ensures !Replay(config, core, history).value.provider.protection <==> LastExposes(config, core, history)
  {
    if history != [] {
      var earlier, last := history[..|history| - 1], history[|history| - 1];
      ReplayFailsClosed(config, core, earlier);
      var before := Replay(config, core, earlier).value;
      var after := Replay(config, core, history).value;
      if last.Served? && before.provider.protection && !after.provider.protection {
        OnlyDirectExposes(config, before, last.request, last.inputs);
      }
      if Exposing(last) && !before.provider.protection {
        ExposingNeverProtects(config, before, last.inputs);
      }
    }
  }

  /** The last operation that changed protection is an exposing one. */
  predicate LastExposes(config: Config, core: Core, history: seq<Entry>)
    requires Replay(config, core, history).Some?
  {
    LastChange(config, core, history).Some? && Exposing(LastChange(config, core, history).value)
  }

  /** Fail-closed over whole runs: starting protected, with drops and failures anywhere, whenever the
      lock is free protection is off if and only if the last operation that changed it is a DIRECT
      that succeeded or whose restoring call had no effect. */
  lemma FailClosed(config: Config, provider: Provider, repository: Store, events: seq<Event>)
    requires provider.protection
    requires Run(config, Start(config, provider, repository), events).lock == None
    ensures var s, core0 := Run(config, Start(config, provider, repository), events),
      Initial(config, provider, repository);
      Replay(config, core0, s.history).Some? &&
      (!s.core.provider.protection <==> LastExposes(config, core0, s.history))
  {
    var s := Run(config, Start(config, provider, repository), events);
    Serialisable(config, provider, repository, events);
    ReplayFailsClosed(config, Initial(config, provider, repository), s.history);
  }

  /** A DISCONNECT never disconnects unprotected: in every reachable state in which a worker is about to
      issue its disconnect, protection and firewall are on, because the check and the call share
      one lock hold. */
  lemma DisconnectIsProtected(config: Config, provider: Provider, repository: Store, events: seq<Event>, thread: Thread)
    requires var local := LocalOf(Run(config, Start(config, provider, repository), events), thread);
      local.Operating? && local.pc == DisconnectChecked
    ensures var p := Run(config, Start(config, provider, repository), events).core.provider; p.protection && p.firewall
  {
    Serialisable(config, provider, repository, events);
    var s := Run(config, Start(config, provider, repository), events);
    var idle := Replay(config, Initial(config, provider, repository), s.history).value;
    RunProtects(config, idle, s.open.value.request, s.open.value.inputs);
  }

  /** A success reply is true when it is sent: at that moment LOCKED means disconnected and protected,
      DIRECT means disconnected and unprotected, and a PROTECTED connection is protected. (A reply of
      VPN was true when it was computed; the VPN may have dropped since.) */
  lemma SuccessIsTruthful(config: Config, provider: Provider, repository: Store, events: seq<Event>, thread: Thread)
    requires var local := LocalOf(Run(config, Start(config, provider, repository), events), thread);
      local.Operating? && local.pc.Finished? && local.pc.reply.Success?
    ensures var s := Run(config, Start(config, provider, repository), events);
      s.open.Some? &&
      match s.open.value.request
      case Protected(_) => LocalOf(s, thread).pc.reply.mode == VPN && s.core.provider.protection
      case Lock => LocalOf(s, thread).pc.reply.mode == LOCKED && s.core.provider.protection &&
        !s.core.provider.connected
      case Direct => LocalOf(s, thread).pc.reply.mode == DIRECT && !s.core.provider.protection &&
        !s.core.provider.connected
      case Disconnect => s.core.provider.protection && LocalOf(s, thread).pc.reply.mode != DIRECT &&
        ModeHolds(s.core.provider, LocalOf(s, thread).pc.reply.mode)
      case Connect(_) => ModeHolds(s.core.provider, LocalOf(s, thread).pc.reply.mode)
      case ReplaceTargets(_, _, _) => false
  {
    Serialisable(config, provider, repository, events);
    var s := Run(config, Start(config, provider, repository), events);
    var idle := Replay(config, Initial(config, provider, repository), s.history).value;
    RunProtects(config, idle, s.open.value.request, s.open.value.inputs);
  }

  // ---------------------------------------------------------------- Catalogue views

  function CountReplacements(history: seq<Entry>): nat {
    if history == [] then 0
    else
      var last := history[|history| - 1];
      CountReplacements(history[..|history| - 1]) + (if last.Served? && last.reply.Replaced? then 1 else 0)
  }

  lemma {:induction false} ReplayAgrees(config: Config, core: Core, history: seq<Entry>)
    requires Agrees(config, core) && Replay(config, core, history).Some?
    ensures var after := Replay(config, core, history).value;
      Agrees(config, after) && Revision(config, after) == Revision(config, core) + CountReplacements(history)
  {
    if history != [] {
      ReplayAgrees(config, core, history[..|history| - 1]);
      var before, last := Replay(config, core, history[..|history| - 1]).value, history[|history| - 1];
      if last.Served? { OperationAgrees(config, before, last.request, last.inputs); }
    }
  }

  /** Snapshot agreement: whenever the lock is free, the in-memory catalogue is the repository's with
      reserved targets removed and positions renumbered, the alias map belongs to it, and the
      revision has grown by exactly the number of successful replacements. */
  lemma SnapshotsAgree(config: Config, provider: Provider, repository: Store, events: seq<Event>)
    requires ValidStore(repository)
    requires Run(config, Start(config, provider, repository), events).lock == None
    ensures var s := Run(config, Start(config, provider, repository), events);
      Agrees(config, s.core) &&
      Revision(config, s.core) == Current(repository, config.name).revision + CountReplacements(s.history)
  {
    InitialAgrees(config, provider, repository);
    Serialisable(config, provider, repository, events);
    ReplayAgrees(config, Initial(config, provider, repository),
      Run(config, Start(config, provider, repository), events).history);
  }

  /** No lost updates: two successful replacements never named the same expected revision. */
  lemma {:induction false} ExpectedRevisionsDiffer(config: Config, core: Core, history: seq<Entry>, i: nat)
    requires Agrees(config, core) && Replay(config, core, history).Some? && i < |history|
    requires history[i].Served? && history[i].reply.Replaced?
    ensures history[i].request.ReplaceTargets?
    ensures history[i].request.expected == Revision(config, core) + CountReplacements(history[..i])
  {
    if i < |history| - 1 {
      ExpectedRevisionsDiffer(config, core, history[..|history| - 1], i);
      assert history[..|history| - 1][..i] == history[..i];
    } else {
      LastExpected(config, core, history[..i], history[i]);
      assert history == history[..i] + [history[i]];
    }
  }

  lemma LastExpected(config: Config, core: Core, earlier: seq<Entry>, last: Entry)
    requires Agrees(config, core) && Replay(config, core, earlier).Some? && Replay(config, core, earlier + [last]).Some?
    requires last.Served? && last.reply.Replaced?
    ensures last.request.ReplaceTargets?
    ensures last.request.expected == Revision(config, core) + CountReplacements(earlier)
  {
    ReplaySnoc(config, core, earlier, last);
    ReplayAgrees(config, core, earlier);
    OperationAgrees(config, Replay(config, core, earlier).value, last.request, last.inputs);
  }

  lemma {:induction false} CountGrows(history: seq<Entry>, i: nat, j: nat)
    requires i < j <= |history| && history[i].Served? && history[i].reply.Replaced?
    ensures CountReplacements(history[..i]) < CountReplacements(history[..j])
    decreases j
  {
    assert history[..j][..j - 1] == history[..j - 1];
    if i < j - 1 { CountGrows(history, i, j - 1); }
  }

  lemma NoTwoReplacementsShareARevision(config: Config, provider: Provider, repository: Store, events: seq<Event>,
      i: nat, j: nat)
    requires ValidStore(repository)
    requires var history := Run(config, Start(config, provider, repository), events).history;
      && i < j < |history|
      && history[i].Served? && history[i].reply.Replaced? && history[j].Served? && history[j].reply.Replaced?
    ensures var history := Run(config, Start(config, provider, repository), events).history;
      history[i].request.ReplaceTargets? && history[j].request.ReplaceTargets? &&
      history[i].request.expected < history[j].request.expected
  {
    InitialAgrees(config, provider, repository);
    Serialisable(config, provider, repository, events);
    var core, history := Initial(config, provider, repository),
      Run(config, Start(config, provider, repository), events).history;
    ExpectedRevisionsDiffer(config, core, history, i);
    ExpectedRevisionsDiffer(config, core, history, j);
    CountGrows(history, i, j);
  }

  /** What an unlocked read may find: the catalogue of one committed version, and the alias map of
      one committed version (while a replacement is being published, possibly the one before). */
  ghost predicate ViewsCommitted(config: Config, s: System) {
    && s.core.catalogue in s.versions
    && exists version :: version in s.versions && s.core.targets == AliasMap(config, version.targets)
  }

  /** A catalogue that a worker is publishing has been committed. */
  predicate PublishesCommitted(local: Local, versions: seq<TargetCatalogue>) {
    local.Operating? && (local.pc.PublishCatalogue? || local.pc.PublishTargets?) ==> local.pc.catalogue in versions
  }

  ghost predicate VersionsTracked(config: Config, s: System) {
    && ViewsCommitted(config, s)
    && forall thread: Thread :: PublishesCommitted(LocalOf(s, thread), s.versions)
  }

  /** What one step of an operation does to the two views. */
  lemma TickViews(config: Config, m: Machine, choice: Choice)
    ensures var m' := Tick(config, m, choice);
      && m'.core.catalogue == (if m.pc.PublishCatalogue? then m.pc.catalogue else m.core.catalogue)
      && m'.core.targets == (if m.pc.PublishTargets? then AliasMap(config, m.pc.catalogue.targets) else m.core.targets)
      && (m'.pc.PublishTargets? ==> m.pc == PublishCatalogue(m'.pc.catalogue))
  {
  }

  lemma AdvanceTracksVersions(config: Config, s: System, thread: Thread, choice: Choice)
    requires VersionsTracked(config, s)
    ensures VersionsTracked(config, Next(config, s, Advance(thread, choice)))
  {
    var s' := Next(config, s, Advance(thread, choice));
    var local := LocalOf(s, thread);
    if local.Operating? && !local.pc.Finished? {
      TickViews(config, Machine(s.core, local.pc), choice);
      assert PublishesCommitted(local, s.versions);
      assert forall v :: v in s.versions ==> v in s'.versions;
      var version :| version in s.versions && s.core.targets == AliasMap(config, version.targets);
      var shown := if local.pc.PublishTargets? then local.pc.catalogue else version;
      assert shown in s'.versions && s'.core.targets == AliasMap(config, shown.targets);
      forall other: Thread ensures PublishesCommitted(LocalOf(s', other), s'.versions) {
        assert PublishesCommitted(LocalOf(s, other), s.versions);
      }
    }
  }

  lemma NextTracksVersions(config: Config, s: System, event: Event)
    requires VersionsTracked(config, s)
    ensures VersionsTracked(config, Next(config, s, event))
  {
    if event.Advance? {
      AdvanceTracksVersions(config, s, event.thread, event.choice);
    } else {
      var s' := Next(config, s, event);
      assert s'.core.targets == s.core.targets;
      forall other: Thread ensures PublishesCommitted(LocalOf(s', other), s'.versions) {
        assert PublishesCommitted(LocalOf(s, other), s.versions);
      }
    }
  }

  lemma {:induction false} AllVersionsTracked(config: Config, provider: Provider, repository: Store, events: seq<Event>)
    ensures VersionsTracked(config, Run(config, Start(config, provider, repository), events))
  {
    var s0 := Start(config, provider, repository);
    if events != [] {
      AllVersionsTracked(config, provider, repository, events[..|events| - 1]);
      NextTracksVersions(config, Run(config, s0, events[..|events| - 1]), events[|events| - 1]);
    } else {
      assert s0.core.catalogue in s0.versions;
    }
  }

  /** The editable view of what the repository holds. */
  function StoredView(config: Config, s: System): TargetCatalogue {
    Editable(config, Current(s.core.repository, config.name))
  }

  /** The newest version is the editable view of what the repository holds. */
  predicate NewestStored(config: Config, s: System) {
    s.versions != [] && s.versions[|s.versions| - 1] == StoredView(config, s)
  }

  /** A step either leaves the repository alone and publishes nothing new, or commits what it will publish. */
  lemma TickStores(config: Config, start: Core, request: Request, m: Machine, choice: Choice)
    requires ValidStore(start.repository) && Publishes(config, start, request, m)
    ensures var m' := Tick(config, m, choice);
      if m'.pc.PublishCatalogue? then
        m'.pc.catalogue == Editable(config, Current(m'.core.repository, config.name))
      else m'.core.repository == m.core.repository
  {
    TickPublishes(config, start, request, m, choice);
    TickRepository(config, m, choice);
  }

  lemma TickRepository(config: Config, m: Machine, choice: Choice)
    ensures var m' := Tick(config, m, choice); m'.pc.PublishCatalogue? || m'.core.repository == m.core.repository
  {
  }

  lemma NextStores(config: Config, core0: Core, s: System, event: Event)
    requires Serial(config, core0, s) && Agrees(config, core0) && NewestStored(config, s)
    ensures NewestStored(config, Next(config, s, event))
  {
    if event.Advance? && LocalOf(s, event.thread).Operating? && !LocalOf(s, event.thread).pc.Finished? {
      var idle, open := Replay(config, core0, s.history).value, s.open.value;
      var m := Machine(s.core, LocalOf(s, event.thread).pc);
      ReplayAgrees(config, core0, s.history);
      RunPublishes(config, idle, open.request, open.inputs);
      TickStores(config, idle, open.request, m, event.choice);
    }
  }

  lemma {:induction false} NewestIsStored(config: Config, provider: Provider, repository: Store, events: seq<Event>)
    requires ValidStore(repository)
    ensures NewestStored(config, Run(config, Start(config, provider, repository), events))
  {
    var s0 := Start(config, provider, repository);
    InitialAgrees(config, provider, repository);
    if events != [] {
      var earlier := events[..|events| - 1];
      NewestIsStored(config, provider, repository, earlier);
      Serialisable(config, provider, repository, earlier);
      NextStores(config, s0.core, Run(config, s0, earlier), events[|events| - 1]);
    }
  }

  /** The catalogue was the editable view of the repository at some moment of the run. */
  ghost predicate WasStored(config: Config, s0: System, events: seq<Event>, catalogue: TargetCatalogue) {
    exists k :: 0 <= k <= |events| && catalogue == StoredView(config, Run(config, s0, events[..k]))
  }

  lemma WasStoredLater(config: Config, s0: System, events: seq<Event>, event: Event, catalogue: TargetCatalogue)
    requires WasStored(config, s0, events, catalogue)
    ensures WasStored(config, s0, events + [event], catalogue)
  {
    var k :| 0 <= k <= |events| && catalogue == StoredView(config, Run(config, s0, events[..k]));
    assert (events + [event])[..k] == events[..k];
  }

  lemma StoredNow(config: Config, s0: System, events: seq<Event>)
    ensures WasStored(config, s0, events, StoredView(config, Run(config, s0, events)))
  {
    assert events[..|events|] == events;
  }

  /** One more event keeps the versions that were stored and adds at most the newest. */
  lemma VersionsMore(config: Config, s0: System, events: seq<Event>, event: Event)
    requires forall version :: version in Run(config, s0, events).versions ==> WasStored(config, s0, events, version)
    requires NewestStored(config, Run(config, s0, events + [event]))
    ensures forall version :: version in Run(config, s0, events + [event]).versions ==>
      WasStored(config, s0, events + [event], version)
  {
    var s := Run(config, s0, events);
    RunSnoc(config, s0, events, event);
    VersionsGrow(config, s, event);
    StoredNow(config, s0, events + [event]);
    var now := Next(config, s, event).versions;
    forall version | version in now ensures WasStored(config, s0, events + [event], version) {
      if version in s.versions {
        WasStoredLater(config, s0, events, event, version);
      } else {
        assert now == now[..|s.versions|] + [now[|now| - 1]];
      }
    }
  }

  lemma {:induction false} VersionsWereStored(config: Config, provider: Provider, repository: Store, events: seq<Event>)
    requires ValidStore(repository)
    ensures var s0 := Start(config, provider, repository);
      forall version :: version in Run(config, s0, events).versions ==> WasStored(config, s0, events, version)
  {
    var s0 := Start(config, provider, repository);
    NewestIsStored(config, provider, repository, events);
    if events == [] {
      StoredNow(config, s0, []);
    } else {
      var earlier, last := events[..|events| - 1], events[|events| - 1];
      VersionsWereStored(config, provider, repository, earlier);
      assert events == earlier + [last];
      VersionsMore(config, s0, earlier, last);
    }
  }

  lemma VersionsGrow(config: Config, s: System, event: Event)
    ensures var now := Next(config, s, event).versions;
      now == s.versions || (|now| == |s.versions| + 1 && now[..|s.versions|] == s.versions)
  {
  }

  /** Each unlocked read of the catalogue or of the target list, at any moment, sees one whole
      version that the repository held at some moment of the run. */
  lemma ReadsSeeCommittedVersions(config: Config, provider: Provider, repository: Store, events: seq<Event>)
    requires ValidStore(repository)
    ensures var s0 := Start(config, provider, repository);
      var core := Run(config, s0, events).core;
      WasStored(config, s0, events, core.catalogue) &&
      exists version :: WasStored(config, s0, events, version) && core.targets == AliasMap(config, version.targets)
  {
    var s0 := Start(config, provider, repository);
    var s := Run(config, s0, events);
    AllVersionsTracked(config, provider, repository, events);
    VersionsWereStored(config, provider, repository, events);
    var version :| version in s.versions && s.core.targets == AliasMap(config, version.targets);
    assert WasStored(config, s0, events, version);
  }

  // ---------------------------------------------------------------- The remembered alias

  /** A worker stands between the return of its connect call and the assignment of the alias. */
  predicate Unassigned(s: System) {
    s.lock.Some? && LocalOf(s, s.lock.value).Operating? && LocalOf(s, s.lock.value).pc.RememberAlias?
  }

  /** Settled, the alias is none or that of the last connect call that returned. Before the
      assignment it is none or that of the call before, and the target to be remembered is the last. */
  predicate AliasExplained(s: System) {
    if Unassigned(s) then
      s.dialled == Some(LocalOf(s, s.lock.value).pc.target.alias) && (s.alias == None || s.alias == s.earlier)
    else s.alias == None || s.alias == s.dialled
  }

  /** What one step does to position and alias. */
  lemma TickAlias(config: Config, m: Machine, choice: Choice)
    requires !m.pc.Finished?
    ensures var pc := Tick(config, m, choice).pc;
      (pc.RememberAlias? <==> Dials(m.pc, choice)) && (pc.RememberAlias? ==> pc.target == m.pc.target)
  {
  }

  lemma NextExplains(config: Config, core0: Core, s: System, event: Event)
    requires Serial(config, core0, s) && AliasExplained(s)
    ensures AliasExplained(Next(config, s, event))
  {
    if event.Advance? && LocalOf(s, event.thread).Operating? && !LocalOf(s, event.thread).pc.Finished? {
      TickAlias(config, Machine(s.core, LocalOf(s, event.thread).pc), event.choice);
    }
  }

  /** In every reachable state: unless a worker stands between call and assignment, in particular
      whenever the lock is free, the remembered alias is none or that of the last connect call that
      returned; in that window it is none or that of the call before. */
  lemma {:induction false} AliasIsLastDialled(config: Config, provider: Provider, repository: Store, events: seq<Event>)
    ensures AliasExplained(Run(config, Start(config, provider, repository), events))
  {
    var s0 := Start(config, provider, repository);
    if events != [] {
      var earlier := events[..|events| - 1];
      AliasIsLastDialled(config, provider, repository, earlier);
      Serialisable(config, provider, repository, earlier);
      NextExplains(config, s0.core, Run(config, s0, earlier), events[|events| - 1]);
    }
  }

  // ---------------------------------------------------------------- Selectors in the repository

  /** Every stored target was there at the start or revalidates to itself. */
  ghost predicate SelectorsClosed(config: Config, repository: Store, now: Store) {
    forall target :: target in Current(now, config.name).targets ==>
      target in Current(repository, config.name).targets || Revalidates(target)
  }

  lemma {:induction false} ReplayCloses(config: Config, core: Core, history: seq<Entry>)
    requires Agrees(config, core) && Replay(config, core, history).Some?
    ensures SelectorsClosed(config, core.repository, Replay(config, core, history).value.repository)
  {
    if history != [] {
      var earlier, last := history[..|history| - 1], history[|history| - 1];
      ReplayCloses(config, core, earlier);
      ReplayAgrees(config, core, earlier);
      if last.Served? { RunCloses(config, Replay(config, core, earlier).value, last.request, last.inputs); }
    }
  }

  /** An operation, however far it got, leaves the stored targets or replaces them by validated ones. */
  lemma RunCloses(config: Config, start: Core, request: Request, inputs: seq<Input>)
    requires ValidStore(start.repository)
    ensures var now := RunAlone(config, start, request, inputs).core.repository;
      now == start.repository || forall target :: target in Current(now, config.name).targets ==> Revalidates(target)
  {
    RunPublishes(config, start, request, inputs);
    if request.ReplaceTargets? && Normalized(request.targets).Some? { NormalizedRevalidate(request.targets); }
  }

  /** Selector closure over every reachable state, also while an operation runs: a stored target was
      there at the start, or it validates to itself and so connects with exactly its own texts. */
  lemma StoredSelectorsRevalidate(config: Config, provider: Provider, repository: Store, events: seq<Event>)
    requires ValidStore(repository)
    ensures SelectorsClosed(config, repository,
      Run(config, Start(config, provider, repository), events).core.repository)
  {
    var s0 := Start(config, provider, repository);
    var s := Run(config, s0, events);
    InitialAgrees(config, provider, repository);
    Serialisable(config, provider, repository, events);
    ReplayCloses(config, s0.core, s.history);
    if s.lock.Some? {
      var idle := Replay(config, s0.core, s.history).value;
      ReplayAgrees(config, s0.core, s.history);
      RunCloses(config, idle, s.open.value.request, s.open.value.inputs);
    }
  }

  // ---------------------------------------------------------------- One request, undisturbed

  /** A request of an idle worker with the lock free takes the lock and begins. */
  lemma SubmitBegins(config: Config, s: System, thread: Thread, request: Request)
    requires LocalOf(s, thread) == Idle && s.lock == None
    ensures var s' := Next(config, s, Submit(thread, request));
      && s'.lock == Some(thread) && LocalOf(s', thread) == Operating(Begin(request))
      && s'.core == s.core && s'.alias == s.alias
  {
  }

  /** STATUS changes nothing but the remembered alias, which it clears exactly when it saw the VPN disconnected. */
  lemma StatusOnlyForgets(config: Config, s: System, thread: Thread, choice: Choice)
    requires LocalOf(s, thread) == Idle && !Raised(choice)
    ensures var s' := Next(config, s, ReadStatus(thread, choice));
      var s'' := Next(config, s', FinishStatus(thread));
      && s'.core == s.core && s'.alias == s.alias && s'.lock == s.lock
      && s'' == s.(locals := s''.locals, alias := s''.alias)
      && s''.alias == (if StateReport(s.core.provider, choice) == Disconnected then None else s.alias)
      && LocalOf(s'', thread) == Idle
  {
  }

  function Chosens(choices: seq<Choice>): (inputs: seq<Input>)
    ensures |inputs| == |choices|
    ensures forall i :: 0 <= i < |choices| ==> inputs[i] == Chosen(choices[i])
  {
    if choices == [] then [] else Chosens(choices[..|choices| - 1]) + [Chosen(choices[|choices| - 1])]
  }

  lemma AdvanceIsTick(config: Config, s: System, thread: Thread, choice: Choice)
    requires LocalOf(s, thread).Operating?
    ensures var s' := Next(config, s, Advance(thread, choice));
      LocalOf(s', thread).Operating? &&
      Machine(s'.core, LocalOf(s', thread).pc) == Tick(config, Machine(s.core, LocalOf(s, thread).pc), choice)
  {
  }

  /** A worker that steps alone runs its operation alone. */
  lemma {:induction false} SteadyIsRun(config: Config, s: System, thread: Thread, request: Request,
      choices: seq<Choice>)
    requires LocalOf(s, thread) == Operating(Begin(request))
    ensures var end := Steady(config, s, thread, choices);
      LocalOf(end, thread).Operating? &&
      Machine(end.core, LocalOf(end, thread).pc) == RunAlone(config, s.core, request, Chosens(choices))
  {
    if choices != [] {
      var earlier, last := choices[..|choices| - 1], choices[|choices| - 1];
      SteadyIsRun(config, s, thread, request, earlier);
      AdvanceIsTick(config, Steady(config, s, thread, earlier), thread, last);
      RunAloneSnoc(config, s.core, request, Chosens(earlier), Chosen(last));
    }
  }

  /** In every reachable state with the lock free: an idle worker's request that meets no fault and
      no drop ends as promised, after at most six steps. */
  lemma UndisturbedRequest(
      config: Config, provider: Provider, repository: Store, events: seq<Event>,
      thread: Thread, request: Request, choices: seq<Choice>)
    requires ValidStore(repository)
    requires var s := Run(config, Start(config, provider, repository), events);
      s.lock == None && LocalOf(s, thread) == Idle
    requires |choices| == 6 && forall choice :: choice in choices ==> Smooth(Chosen(choice))
    ensures var s := Run(config, Start(config, provider, repository), events);
      var end := Steady(config, Next(config, s, Submit(thread, request)), thread, choices);
      end.core == Promised(config, s.core, request).0 &&
      LocalOf(end, thread) == Operating(Finished(Promised(config, s.core, request).1, false))
  {
    var s := Run(config, Start(config, provider, repository), events);
    SnapshotsAgree(config, provider, repository, events);
    SubmitBegins(config, s, thread, request);
    SteadyIsRun(config, Next(config, s, Submit(thread, request)), thread, request, choices);
    SmoothRunKeepsPromise(config, s.core, request, Chosens(choices));
  }
}
