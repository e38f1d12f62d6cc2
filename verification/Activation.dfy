/** The pending / confirmed / rolled_back protocol of scripts/snarkypuss-activate.py and
    scripts/snarkypuss-rollback.py. */
module Activation {
  import opened Prelude
  import opened Firewall

  // ---------------------------------------------------------------- Services

  datatype Service = Service(enabled: bool, active: bool)

  type Services = map<string, Service>

  /** The three units an activation captures. The generated DNS unit has Requires= and After=
      on the tunnel unit, so starting it starts the tunnel and stopping the tunnel stops it. */
  datatype Units = Units(tunnel: string, dns: string, legacy: string) {
    predicate Distinct() { tunnel != dns && tunnel != legacy && dns != legacy }

    function Listed(): seq<string> { [tunnel, dns, legacy] }

    predicate Known(services: Services) { tunnel in services && dns in services && legacy in services }

    /** What Requires= guarantees about running units. */
    predicate Coherent(services: Services)
      requires Known(services)
    {
      services[dns].active ==> services[tunnel].active
    }
  }

  function SetEnabled(services: Services, unit: string, enabled: bool): Services
    requires unit in services
  {
    services[unit := services[unit].(enabled := enabled)]
  }

  function SetActive(services: Services, unit: string, active: bool): Services
    requires unit in services
  {
    services[unit := services[unit].(active := active)]
  }

  function Start(units: Units, services: Services, unit: string): Services
    requires units.Known(services) && unit in services
  {
    var started := SetActive(services, unit, true);
    if unit == units.dns then SetActive(started, units.tunnel, true) else started
  }

  function Stop(units: Units, services: Services, unit: string): Services
    requires units.Known(services) && unit in services
  {
    var stopped := SetActive(services, unit, false);
    if unit == units.tunnel then SetActive(stopped, units.dns, false) else stopped
  }

  /** restore_service when both systemctl commands take effect. */
  function RestoreService(units: Units, services: Services, unit: string, captured: Service): Services
    requires units.Known(services) && unit in services
  {
    var switched := SetEnabled(services, unit, captured.enabled);
    if captured.active then Start(units, switched, unit) else Stop(units, switched, unit)
  }

  /** The restoration loop: tunnel, DNS, legacy resolver, in the captured order. */
  function RestoreServices(units: Units, services: Services, captured: Services): Services
    requires units.Known(services) && units.Known(captured)
  {
    var one := RestoreService(units, services, units.tunnel, captured[units.tunnel]);
    var two := RestoreService(units, one, units.dns, captured[units.dns]);
    RestoreService(units, two, units.legacy, captured[units.legacy])
  }

  /** Restoring one unit: it reaches its captured state, and drags along at most the unit it is tied to. */
  lemma OneRestored(units: Units, services: Services, unit: string, captured: Service)
    requires units.Distinct() && units.Known(services) && unit in units.Listed()
    ensures var now := RestoreService(units, services, unit, captured);
      && now.Keys == services.Keys && now[unit] == captured
      && (forall other :: other in services && other !in units.Listed() ==> now[other] == services[other])
      && (unit != units.legacy ==> now[units.legacy] == services[units.legacy])
      && (unit == units.legacy ==> now[units.tunnel] == services[units.tunnel] && now[units.dns] == services[units.dns])
      && (unit == units.dns ==>
        now[units.tunnel] == services[units.tunnel].(active := services[units.tunnel].active || captured.active))
  {
  }

  /** The states after the loop: the tunnel also runs when the DNS service was captured running. */
  lemma AllRestored(units: Units, services: Services, captured: Services)
    requires units.Distinct() && units.Known(services) && units.Known(captured)
    ensures var now := RestoreServices(units, services, captured);
      && now.Keys == services.Keys
      && (forall unit :: unit in services && unit !in units.Listed() ==> now[unit] == services[unit])
      && now[units.legacy] == captured[units.legacy] && now[units.dns] == captured[units.dns]
      && now[units.tunnel] ==
        captured[units.tunnel].(active := captured[units.tunnel].active || captured[units.dns].active)
  {
    var one := RestoreService(units, services, units.tunnel, captured[units.tunnel]);
    var two := RestoreService(units, one, units.dns, captured[units.dns]);
    OneRestored(units, services, units.tunnel, captured[units.tunnel]);
    OneRestored(units, one, units.dns, captured[units.dns]);
    OneRestored(units, two, units.legacy, captured[units.legacy]);
  }

  /** From any running state the restoration order reaches the captured states, without touching
      other units, exactly when the captured state had no DNS service running without its tunnel. */
  lemma RestorationExact(units: Units, services: Services, captured: Services)
    requires units.Distinct() && units.Known(services) && units.Known(captured)
    ensures var now := RestoreServices(units, services, captured);
      now.Keys == services.Keys &&
      (forall unit :: unit in services && unit !in units.Listed() ==> now[unit] == services[unit]) &&
      ((forall unit :: unit in units.Listed() ==> now[unit] == captured[unit]) <==> units.Coherent(captured))
  {
    AllRestored(units, services, captured);
    var listed := units.Listed();
    assert listed[0] == units.tunnel && units.tunnel in listed;
  }

  // ---------------------------------------------------------------- Deployment

  datatype Status = Pending | Confirmed | RolledBack

  /** The rules that iptables-save prints and rules.v4 holds. */
  datatype Ruleset = Ruleset(filter: Chains, masq: Chains)

  datatype Host = Host(rules: Ruleset, ipForward: string, services: Services, persistent: Option<Ruleset>)

  /** Which of the two tables iptables-save listed: a table that nothing has used yet is not. */
  datatype Listing = Listing(filter: bool, masq: bool)

  /** The activation state file. Of the captured rules it holds the listed tables only. */
  datatype Record = Record(status: Status, captured: Host, listed: Listing) {
    /** iptables-restore replaces the tables it is given and leaves any other alone. */
    function Restore(now: Ruleset): Ruleset {
      Ruleset(if listed.filter then captured.rules.filter else now.filter,
              if listed.masq then captured.rules.masq else now.masq)
    }

    /** Every table that differs from the captured rules was listed. */
    predicate Covers(now: Ruleset) {
      && (listed.filter || now.filter == captured.rules.filter)
      && (listed.masq || now.masq == captured.rules.masq)
    }
  }

  /** The host, its activation record and whether the rollback timer is armed. */
  datatype Deployment = Deployment(host: Host, record: Record, timer: bool)

  /** `FailedAfterSave` is a confirm that wrote the persistent rules before it failed. */
  datatype Outcome = Done | Refused | Failed | FailedAfterSave

  // ---------------------------------------------------------------- The protocol as a relation

  /** confirm under the file lock. Saving may fail with or without having written the persistent
      rules, and so may the state write after it. */
  ghost predicate ConfirmStep(d: Deployment, d': Deployment, outcome: Outcome) {
    var saved := d.host.(persistent := Some(d.host.rules));
    match outcome
    case Refused => d.record.status != Pending && d' == d
    case Failed =>
      d.record.status == Pending && d'.record == d.record && d'.host == d.host && (d'.timer ==> d.timer)
    case FailedAfterSave =>
      d.record.status == Pending && d'.record == d.record && d'.host == saved && (d'.timer ==> d.timer)
    case Done =>
      d.record.status == Pending && d'.host == saved && d'.record == d.record.(status := Confirmed) &&
        (d'.timer ==> d.timer)
  }

  /** The checked restoration commands, cut at any point before the status is written; iptables-restore
      commits table by table, so it may be cut between them. Unchecked
      systemctl commands may each have had any effect, on the captured units only. */
  ghost predicate PartlyRestored(units: Units, d: Deployment, d': Deployment) {
    var captured := d.record.captured;
    && d'.record == d.record
    && d'.host.rules.filter in {d.host.rules.filter, d.record.Restore(d.host.rules).filter}
    && d'.host.rules.masq in {d.host.rules.masq, d.record.Restore(d.host.rules).masq}
    && (d'.host.ipForward == d.host.ipForward || d'.host.ipForward == captured.ipForward)
    && OnlyUnits(units, d.host.services, d'.host.services)
    && (d'.host.persistent == d.host.persistent ||
        (d.record.status == Confirmed && d'.host.persistent == captured.persistent))
    && d'.timer == d.timer
  }

  ghost predicate OnlyUnits(units: Units, before: Services, after: Services) {
    && before.Keys == after.Keys
    && forall unit :: unit in before && unit !in units.Listed() ==> after[unit] == before[unit]
  }

  /** The rollback script under the file lock. With `sure` systemctl commands the services are
      restored too; without them only the captured units may differ. */
  ghost predicate RollbackStep(units: Units, d: Deployment, d': Deployment, force: bool, automatic: bool, sure: bool,
      outcome: Outcome)
    requires units.Known(d.host.services) && units.Known(d.record.captured.services)
  {
    var captured := d.record.captured;
    match outcome
    case Refused => d.record.status == Confirmed && !force && !automatic && d' == d
    case Failed =>
      d.record.status != RolledBack && (d.record.status == Confirmed ==> force) && PartlyRestored(units, d, d')
    case FailedAfterSave => false
    case Done =>
      if d.record.status == RolledBack || (d.record.status == Confirmed && !force) then
        (d.record.status == RolledBack || automatic) && d' == d
      else
        && d'.record == d.record.(status := RolledBack)
        && d'.host.rules == d.record.Restore(d.host.rules)
        && d'.host.ipForward == captured.ipForward
        && OnlyUnits(units, d.host.services, d'.host.services)
        && (sure ==> d'.host.services == RestoreServices(units, d.host.services, captured.services))
        && d'.host.persistent == (if d.record.status == Confirmed then captured.persistent else d.host.persistent)
        && (d'.timer ==> d.timer)
  }

  // ---------------------------------------------------------------- Implementation

  /** The gateway on which the two scripts run. */
  class Gateway {
    const filter: RuleTable
    const masq: RuleTable
    const units: Units
    const sure: bool            // unchecked systemctl commands always take effect
    const reliable: bool        // confirming and rolling back meet no failing command or write
    const willing: bool         // nor does activating, apart from iptables
    var ipForward: string
    var services: Services
    var persistent: Option<Ruleset>
    var record: Option<Record>
    var timer: bool

    constructor (filter: RuleTable, masq: RuleTable, units: Units, sure: bool, reliable: bool, willing: bool,
                 ipForward: string, services: Services, persistent: Option<Ruleset>)
      requires filter != masq && units.Distinct() && units.Known(services)
      ensures Valid() && record == None && !timer
      ensures this.filter == filter && this.masq == masq && this.units == units
      ensures this.sure == sure && this.reliable == reliable && this.willing == willing
      ensures this.ipForward == ipForward && this.services == services && this.persistent == persistent
    {
      this.filter, this.masq, this.units := filter, masq, units;
      this.sure, this.reliable, this.willing := sure, reliable, willing;
      this.ipForward, this.services, this.persistent := ipForward, services, persistent;
      record, timer := None, false;
    }

    ghost predicate Valid()
      reads this
    {
      && filter != masq
      && units.Distinct() && units.Known(services)
      && (record.Some? ==>
          units.Known(record.value.captured.services) && record.value.captured.services.Keys == services.Keys)
    }

    function Observe(): Host
      reads this, filter, masq
    {
      Host(Ruleset(filter.chains, masq.chains), ipForward, services, persistent)
    }

    /** Nothing but a foreign firewall rule makes a mutating command fail. */
    predicate Obliging()
      reads this
    {
      willing && filter.reliable && masq.reliable
    }

    function State(): Deployment
      requires record.Some?
      reads this, filter, masq
    {
      Deployment(Observe(), record.value, timer)
    }

    /** A systemctl command run with check=False: it may silently do nothing. */
    method TrySwitch(unit: string, enabled: bool)
      requires unit in services
      modifies this`services
      ensures services == old(services) || services == SetEnabled(old(services), unit, enabled)
      ensures sure ==> services == SetEnabled(old(services), unit, enabled)
    {
      var works: bool := *;
      if works || sure { services := SetEnabled(services, unit, enabled); }
    }

    method TryRun(unit: string, active: bool)
      requires units.Known(services) && unit in services
      modifies this`services
      ensures sure ==>
        services == if active then Start(units, old(services), unit) else Stop(units, old(services), unit)
      ensures services == old(services) ||
        services == if active then Start(units, old(services), unit) else Stop(units, old(services), unit)
    {
      var works: bool := *;
      if works || sure {
        services := if active then Start(units, services, unit) else Stop(units, services, unit);
      }
    }

    /** restore_service */
    method RestoreOne(unit: string, captured: Service)
      requires units.Known(services) && unit in services && unit in units.Listed()
      modifies this`services
      ensures OnlyUnits(units, old(services), services)
      ensures sure ==> services == RestoreService(units, old(services), unit, captured)
    {
      TrySwitch(unit, captured.enabled);
      TryRun(unit, captured.active);
    }

    /** The restoring loop over the captured units. */
    method RestoreUnits(captured: Services)
      requires units.Known(services) && units.Known(captured)
      modifies this`services
      ensures OnlyUnits(units, old(services), services)
      ensures sure ==> services == RestoreServices(units, old(services), captured)
    {
      RestoreOne(units.tunnel, captured[units.tunnel]);
      RestoreOne(units.dns, captured[units.dns]);
      RestoreOne(units.legacy, captured[units.legacy]);
    }

    /** confirm: only a pending activation is confirmed; persistent rules become the live ones. */
    method Confirm() returns (outcome: Outcome)
      requires Valid() && record.Some?
      modifies this
      ensures Valid() && record.Some? && ConfirmStep(old(State()), State(), outcome)
      ensures reliable ==> outcome == (if old(record).value.status == Pending then Done else Refused)
      ensures sure && outcome == Done ==> !timer
    {
      if record.value.status != Pending { return Refused; }
      var writes: bool, works: bool, stored: bool := *, *, *;
      if works || writes || reliable { persistent := Some(Ruleset(filter.chains, masq.chains)); }
      if !works && !reliable { return if writes then FailedAfterSave else Failed; }
      StopTimer();
      if !stored && !reliable { return FailedAfterSave; }
      record := Some(record.value.(status := Confirmed));
      return Done;
    }

    /** Stopping the timer unit is not checked. */
    method StopTimer()
      modifies this`timer
      ensures timer ==> old(timer)
      ensures sure ==> !timer
    {
      var stops: bool := *;
      if stops || sure { timer := false; }
    }

    /** iptables-restore and sysctl: the checked commands that put rules and forwarding back. */
    method RestoreRules() returns (ok: bool)
      requires Valid() && record.Some?
      modifies this`ipForward, filter, masq
      ensures filter.chains in {old(filter.chains), record.value.Restore(old(Observe().rules)).filter}
      ensures masq.chains in {old(masq.chains), record.value.Restore(old(Observe().rules)).masq}
      ensures ipForward == old(ipForward) || ipForward == record.value.captured.ipForward
      ensures ok ==> Observe().rules == record.value.Restore(old(Observe().rules))
      ensures ok ==> ipForward == record.value.captured.ipForward
      ensures reliable ==> ok
    {
      var filterRestored: bool, masqRestored: bool, forwarded: bool := *, *, *;
      var target := record.value.Restore(Ruleset(filter.chains, masq.chains));
      if filterRestored || reliable { filter.chains := target.filter; }
      if masqRestored || reliable { masq.chains := target.masq; }
      if !(filterRestored && masqRestored && forwarded) && !reliable { return false; }
      ipForward := record.value.captured.ipForward;
      return true;
    }

    /** The rollback script. A checked command that fails leaves the status as it was, so that a
        retry starts over. Without a failing command an activation that may be rolled back is. */
    method Rollback(force: bool, automatic: bool) returns (outcome: Outcome)
      requires Valid() && record.Some?
      modifies this, filter, masq
      ensures Valid() && record.Some?
      ensures RollbackStep(units, old(State()), State(), force, automatic, sure, outcome)
      ensures reliable ==>
        outcome == if old(record).value.status == Confirmed && !force && !automatic then Refused else Done
      ensures sure && outcome == Done && record != old(record) ==> !timer
    {
      var status, captured := record.value.status, record.value.captured;
      if status == RolledBack { return Done; }
      if status == Confirmed && !force {
        return if automatic then Done else Refused;
      }
      var ok := RestoreRules();
      if !ok { return Failed; }
      RestoreUnits(captured.services);
      if status == Confirmed {
        var written: bool := *;
        if !written && !reliable { return Failed; }
        persistent := captured.persistent;
      }
      var stored: bool := *;
      if !stored && !reliable { return Failed; }
      record := Some(record.value.(status := RolledBack));
      StopTimer();
      return Done;
    }

    /** A checked systemctl command: it fails without effect or after any part of it. */
    method EnableNow(unit: string) returns (ok: bool)
      requires units.Known(services) && unit in services && unit in units.Listed()
      modifies this`services
      ensures OnlyUnits(units, old(services), services)
      ensures ok ==> services == Start(units, SetEnabled(old(services), unit, true), unit)
      ensures willing ==> ok
      ensures units.Distinct() && units.Coherent(old(services)) ==> units.Coherent(services)
    {
      var first: bool, second: bool := *, *;
      if first || willing { services := SetEnabled(services, unit, true); }
      ok := willing || (first && second);
      if ok { services := Start(units, services, unit); }
    }

    method DisableNow(unit: string) returns (ok: bool)
      requires units.Known(services) && unit in services && unit in units.Listed()
      modifies this`services
      ensures OnlyUnits(units, old(services), services)
      ensures ok ==> services == Stop(units, SetEnabled(old(services), unit, false), unit)
      ensures willing ==> ok
      ensures units.Distinct() && units.Coherent(old(services)) ==> units.Coherent(services)
    {
      var first: bool, second: bool := *, *;
      if first || willing { services := SetEnabled(services, unit, false); }
      ok := willing || (first && second);
      if ok { services := Stop(units, services, unit); }
    }

    /** The tunnel and the DNS service are switched on, an owned legacy resolver off in between. */
    method SwitchServices(legacyOwned: bool) returns (ok: bool)
      requires units.Distinct() && units.Known(services)
      modifies this`services
      ensures units.Known(services) && OnlyUnits(units, old(services), services)
      ensures ok ==> services[units.tunnel] == Service(true, true) && services[units.dns] == Service(true, true)
      ensures ok ==>
        services[units.legacy] == if legacyOwned then Service(false, false) else old(services)[units.legacy]
      ensures units.Coherent(old(services)) ==> units.Coherent(services)
      ensures willing ==> ok
    {
      var legacy := services[units.legacy];
      ok := EnableNow(units.tunnel);
      if !ok { return; }
      if legacyOwned && (legacy.active || legacy.enabled) {
        ok := DisableNow(units.legacy);
        if !ok { return; }
      }
      ok := EnableNow(units.dns);
    }

    /** The mutating commands of apply, in order, stopping at the first failure. What the record
        does not cover (persistent rules, other units) is never touched, and at no cut does the DNS
        service run without its tunnel. Where only a foreign rule can be in the way, one must be. */
    method Mutate(config: Config, legacyOwned: bool) returns (ok: bool)
      requires Valid() && Editable(Observe().rules)
      modifies this`ipForward, this`services, filter, masq
      ensures units.Known(services) && OnlyUnits(units, old(services), services)
      ensures ok ==> Observe().rules == ActivatedRules(old(Observe().rules), config) && ipForward == "1"
      ensures ok ==> services[units.tunnel] == Service(true, true) && services[units.dns] == Service(true, true)
      ensures ok ==>
        services[units.legacy] == if legacyOwned then Service(false, false) else old(services)[units.legacy]
      ensures units.Coherent(old(services)) ==> units.Coherent(services)
      ensures Obliging() ==> (ok <==> !Held(old(Observe().rules)))
    {
      ok := ApplyFirewall(filter, masq, config);
      if !ok { return; }
      var forwarded: bool := *;
      if !forwarded && !willing { return false; }
      ipForward := "1";
      var reloaded: bool := *;
      if !reloaded && !willing { return false; }
      ok := SwitchServices(legacyOwned);
    }

    /** apply after its read-only checks: capture, arm the timer, mutate, and roll back by force
        on failure. `Refused` is a failure before any mutation. `Failed` is a failed mutation, after
        which the forced rollback ran unless the process `died` in the middle of the mutations. */
    method Apply(config: Config, legacyOwned: bool) returns (outcome: Outcome, ghost died: bool)
      requires Valid() && Editable(Observe().rules)
      modifies this, filter, masq
      ensures Valid()
      ensures !legacyOwned && (old(services)[units.legacy].active || old(services)[units.legacy].enabled) ==>
        outcome == Refused
      ensures outcome == Refused ==> Observe() == old(Observe())
      ensures Obliging() ==>
        (outcome == Refused <==>
          !legacyOwned && (old(services)[units.legacy].active || old(services)[units.legacy].enabled))
      ensures Obliging() && outcome != Refused ==> (outcome == Failed <==> Held(old(Observe().rules)))
      ensures died ==> outcome == Failed
      ensures outcome != Refused ==> record.Some? && record.value.captured == old(Observe())
      ensures outcome == Failed && !died && reliable ==> record.value.status == RolledBack
      ensures outcome != Refused ==> Covered(units, old(Observe()), Observe())
      ensures outcome == Done ==> record.value.status == Pending && timer
      ensures outcome == Done ==> Observe().rules == ActivatedRules(old(Observe().rules), config) && ipForward == "1"
      ensures outcome == Done ==>
        services[units.tunnel] == Service(true, true) && services[units.dns] == Service(true, true)
      ensures outcome == Done && legacyOwned ==> services[units.legacy] == Service(false, false)
      ensures outcome == Failed && record.value.status != RolledBack ==> record.value.status == Pending && timer
      ensures outcome != Refused && record.value.status == Pending ==> Started(units, State())
      ensures outcome == Failed && record.value.status == RolledBack ==>
        && (record.value.listed.filter ==> filter.chains == old(filter.chains))
        && (record.value.listed.masq ==> masq.chains == old(masq.chains))
      ensures outcome == Failed && record.value.status == RolledBack && sure ==>
        (Observe() == old(Observe()) <==> units.Coherent(old(services)) && Observe().rules == old(Observe().rules))
    {
      var legacy := services[units.legacy];
      died := false;
      if (legacy.active || legacy.enabled) && !legacyOwned { return Refused, false; }
      var stored: bool := *;
      if !stored && !willing { return Refused, false; }
      var filterListed: bool, masqListed: bool := *, *;
      record := Some(Record(Pending, Observe(), Listing(filterListed, masqListed)));
      var armed: bool := *;
      if !armed && !willing { return Refused, false; }
      timer := true;
      var ok := Mutate(config, legacyOwned);
      if ok { return Done, false; }
      var crashed: bool := *;
      if crashed { return Failed, true; }
      ghost var cut := State();
      var rolledBack := Rollback(true, false);
      if rolledBack == Done && sure {
        RollbackRestores(units, cut, State(), true, false);
      }
      return Failed, false;
    }
  }

  /** Where every run begins: a pending activation that has touched nothing but what a rollback restores. */
  ghost predicate Started(units: Units, d: Deployment) {
    && Wellformed(units, d) && d.record.status == Pending
    && d.host.persistent == d.record.captured.persistent
  }

  /** Rules whose hooks exist and whose jumps lead to existing chains. */
  ghost predicate Editable(rules: Ruleset) {
    && FORWARD in rules.filter && POSTROUTING in rules.masq
    && Closed(rules.filter) && Closed(rules.masq)
  }

  /** A rule outside the owned chains and their plain jumps leads to an owned chain that exists. */
  ghost predicate Held(rules: Ruleset) {
    || (FORWARD_CHAIN in rules.filter && ForeignReference(rules.filter, FORWARD, FORWARD_CHAIN))
    || (NAT_CHAIN in rules.masq && ForeignReference(rules.masq, POSTROUTING, NAT_CHAIN))
  }

  function ActivatedRules(rules: Ruleset, config: Config): Ruleset
    requires FORWARD in rules.filter && POSTROUTING in rules.masq
  {
    Ruleset(Installed(rules.filter, FORWARD, FORWARD_CHAIN, ForwardRules(config)),
            Installed(rules.masq, POSTROUTING, NAT_CHAIN, NatRules(config)))
  }

  /** Everything a rollback does not restore is unchanged: other units and the persistent rules. */
  ghost predicate Covered(units: Units, before: Host, after: Host) {
    OnlyUnits(units, before.services, after.services) && after.persistent == before.persistent
  }

  // ---------------------------------------------------------------- Whole runs

  /** A completed rollback of a covered host returns the whole captured host, exactly when the
      captured services were coherent and every edited table was listed. Any cut of the activation
      leaves the host covered. */
  lemma RollbackRestores(units: Units, d: Deployment, d': Deployment, force: bool, automatic: bool)
    requires units.Distinct() && units.Known(d.host.services) && units.Known(d.record.captured.services)
    requires RollbackStep(units, d, d', force, automatic, true, Done)
    requires d.record.status == Pending || (d.record.status == Confirmed && force)
    requires OnlyUnits(units, d.record.captured.services, d.host.services)
    requires d.record.status == Pending ==> d.host.persistent == d.record.captured.persistent
    ensures d'.record.status == RolledBack
    ensures d'.host == d.record.captured <==>
      units.Coherent(d.record.captured.services) && d.record.Covers(d.host.rules)
  {
    RollbackMeaning(units, d, d');
  }

  /** The timer runs the rollback script with --automatic and without --force. `Meddle` is anyone
      else changing rules, forwarding or the captured units between the locked bodies. */
  datatype Event =
    | Confirming(outcome: Outcome)
    | Timer(outcome: Outcome)
    | Manual(force: bool, outcome: Outcome)
    | Meddle

  ghost predicate Wellformed(units: Units, d: Deployment) {
    && units.Distinct() && units.Known(d.record.captured.services)
    && OnlyUnits(units, d.record.captured.services, d.host.services)
  }

  ghost predicate Step(units: Units, sure: bool, d: Deployment, event: Event, d': Deployment)
    requires Wellformed(units, d)
  {
    match event
    case Confirming(outcome) => ConfirmStep(d, d', outcome)
    case Timer(outcome) => d.timer && RollbackStep(units, d, d', false, true, sure, outcome)
    case Manual(force, outcome) => RollbackStep(units, d, d', force, false, sure, outcome)
    case Meddle => d'.record == d.record && d'.timer == d.timer && Covered(units, d.host, d'.host)
  }

  /** Any order of events, each locked body run to completion; `ds[i]` is the state before event i.
      In a `sure` run the unchecked systemctl commands take effect; in others they may do nothing. */
  ghost predicate Run(units: Units, sure: bool, ds: seq<Deployment>, events: seq<Event>) {
    && |ds| == |events| + 1
    && (forall i :: 0 <= i < |ds| ==> Wellformed(units, ds[i]))
    && forall i :: 0 <= i < |events| ==> Step(units, sure, ds[i], events[i], ds[i + 1])
  }

  /** Wellformedness is no restriction: every step keeps it. */
  lemma StepKeepsWellformed(units: Units, sure: bool, d: Deployment, event: Event, d': Deployment)
    requires Wellformed(units, d) && Step(units, sure, d, event, d')
    ensures Wellformed(units, d') && d'.record.captured == d.record.captured
  {
  }

  predicate Before(earlier: Status, later: Status) {
    earlier == later || earlier == Pending || (earlier == Confirmed && later == RolledBack)
  }

  /** Over every run the status only moves pending -> confirmed -> rolled_back or pending ->
      rolled_back, and it leaves confirmed only by a forced manual rollback. */
  lemma {:induction false} StatusMonotone(units: Units, sure: bool, ds: seq<Deployment>, events: seq<Event>, i: nat,
      j: nat)
    requires Run(units, sure, ds, events) && i <= j < |ds|
    ensures Before(ds[i].record.status, ds[j].record.status)
    ensures ds[i].record.status == Confirmed && (forall k :: i <= k < j ==> !(events[k].Manual? && events[k].force)) ==>
      ds[j].record.status == Confirmed && ds[j].host.persistent == ds[i].host.persistent
    ensures ds[i].record.status == RolledBack ==>
      ds[j].record == ds[i].record && ds[j].host.persistent == ds[i].host.persistent
    decreases j - i
  {
    if i < j {
      StatusMonotone(units, sure, ds, events, i, j - 1);
      assert Step(units, sure, ds[j - 1], events[j - 1], ds[j]);
    }
  }

  /** After a rollback no protocol event changes anything: only outsiders do. */
  lemma {:induction false} RolledBackAbsorbs(units: Units, sure: bool, ds: seq<Deployment>, events: seq<Event>,
      i: nat, j: nat)
    requires Run(units, sure, ds, events) && i <= j < |ds| && ds[i].record.status == RolledBack
    requires forall k :: i <= k < j ==> events[k] != Meddle
    ensures ds[j] == ds[i]
    decreases j - i
  {
    if i < j {
      RolledBackAbsorbs(units, sure, ds, events, i, j - 1);
      assert Step(units, sure, ds[j - 1], events[j - 1], ds[j]);
    }
  }

  /** Some event among the first j completed a confirmation. */
  predicate WasConfirmed(events: seq<Event>, j: nat)
    requires j <= |events|
  {
    j > 0 && (events[j - 1] == Confirming(Done) || WasConfirmed(events, j - 1))
  }

  /** The rules that the last confirm saved before failing, among the first j events. */
  function LastInterrupted(ds: seq<Deployment>, events: seq<Event>, j: nat): Option<Ruleset>
    requires j <= |events| < |ds|
  {
    if j == 0 then None
    else if events[j - 1] == Confirming(FailedAfterSave) then Some(ds[j - 1].host.rules)
    else LastInterrupted(ds, events, j - 1)
  }

  /** What interrupted confirms leave persistent. */
  function LeftPersistent(ds: seq<Deployment>, events: seq<Event>, j: nat): Option<Ruleset>
    requires j <= |events| < |ds|
  {
    var saved := LastInterrupted(ds, events, j);
    if saved.Some? then saved else ds[0].record.captured.persistent
  }

  function Expected(ds: seq<Deployment>, events: seq<Event>, j: nat): Option<Ruleset>
    requires j <= |events| < |ds|
  {
    if WasConfirmed(events, j) then ds[0].record.captured.persistent else LeftPersistent(ds, events, j)
  }

  /** What one event does to status and persistent rules. */
  ghost predicate PersistentStep(d: Deployment, event: Event, d': Deployment) {
    && d'.record.captured == d.record.captured
    && match event
       case Confirming(Done) => d.record.status == Pending && d'.record.status == Confirmed
       case Confirming(FailedAfterSave) =>
         d.record.status == Pending && d'.record.status == Pending && d'.host.persistent == Some(d.host.rules)
       case _ =>
         && (d'.record.status == d.record.status || d'.record.status == RolledBack)
         && (d'.record.status != Confirmed ==>
           d'.host.persistent ==
             if d.record.status == Confirmed then d.record.captured.persistent else d.host.persistent)
  }

  lemma StepPersistent(units: Units, sure: bool, d: Deployment, event: Event, d': Deployment)
    requires Wellformed(units, d) && Step(units, sure, d, event, d')
    ensures PersistentStep(d, event, d')
  {
  }

  ghost predicate PersistentSteps(ds: seq<Deployment>, events: seq<Event>)
    requires |events| < |ds|
  {
    forall k :: 0 <= k < |events| ==> PersistentStep(ds[k], events[k], ds[k + 1])
  }

  lemma {:induction false} StepsFollow(ds: seq<Deployment>, events: seq<Event>, j: nat)
    requires j <= |events| < |ds| && PersistentSteps(ds, events)
    requires ds[0].record.status == Pending && ds[0].host.persistent == ds[0].record.captured.persistent
    ensures ds[j].record.captured == ds[0].record.captured
    ensures ds[j].record.status == Pending ==> !WasConfirmed(events, j)
    ensures ds[j].record.status == Confirmed ==> WasConfirmed(events, j)
    ensures ds[j].record.status != Confirmed ==> ds[j].host.persistent == Expected(ds, events, j)
    decreases j
  {
    if j > 0 {
      StepsFollow(ds, events, j - 1);
      assert PersistentStep(ds[j - 1], events[j - 1], ds[j]);
    }
  }

  /** The persistent rules at every moment of every run that starts with an activation: until a
      confirmation they are what interrupted confirms left; after one and the rollback that undoes
      it they are the captured ones. */
  lemma PersistentFollowsStatus(units: Units, sure: bool, ds: seq<Deployment>, events: seq<Event>, j: nat)
    requires Run(units, sure, ds, events) && j < |ds|
    requires Started(units, ds[0])
    ensures ds[j].record.captured == ds[0].record.captured
    ensures ds[j].record.status == Pending ==> !WasConfirmed(events, j)
    ensures ds[j].record.status == Confirmed ==> WasConfirmed(events, j)
    ensures ds[j].record.status != Confirmed ==> ds[j].host.persistent == Expected(ds, events, j)
  {
    forall k | 0 <= k < |events| ensures PersistentStep(ds[k], events[k], ds[k + 1]) {
      StepPersistent(units, sure, ds[k], events[k], ds[k + 1]);
    }
    StepsFollow(ds, events, j);
  }

  /** Exactly when a rolled-back activation leaves the captured persistent rules: it was confirmed
      before, or no confirm was interrupted after saving, or the last such saved equal rules. */
  predicate PersistentReturns(ds: seq<Deployment>, events: seq<Event>, j: nat)
    requires j <= |events| < |ds|
  {
    || WasConfirmed(events, j)
    || LastInterrupted(ds, events, j) == None
    || LastInterrupted(ds, events, j) == ds[0].record.captured.persistent
  }

  lemma RolledBackPersistent(units: Units, sure: bool, ds: seq<Deployment>, events: seq<Event>, j: nat)
    requires Run(units, sure, ds, events) && j < |ds| && ds[j].record.status == RolledBack
    requires Started(units, ds[0])
    ensures ds[j].host.persistent == ds[0].record.captured.persistent <==> PersistentReturns(ds, events, j)
  {
    PersistentFollowsStatus(units, sure, ds, events, j);
  }

  /** Transactional activation over whole runs: whatever cuts, retries, confirmations and outside
      changes came before, the rollback that completes returns the captured host, exactly when the
      captured services were coherent, every table edited since was listed at the capture, and the
      persistent rules return. A run may begin wherever `apply` was cut. */
  lemma RunRestores(units: Units, ds: seq<Deployment>, events: seq<Event>, j: nat)
    requires Run(units, true, ds, events) && j + 1 < |ds|
    requires Started(units, ds[0])
    requires ds[j].record.status != RolledBack && ds[j + 1].record.status == RolledBack
    ensures ds[j + 1].host == ds[0].record.captured <==>
      units.Coherent(ds[0].record.captured.services) && ds[j].record.Covers(ds[j].host.rules) &&
      PersistentReturns(ds, events, j + 1)
  {
    PersistentFollowsStatus(units, true, ds, events, j);
    RolledBackPersistent(units, true, ds, events, j + 1);
    assert Step(units, true, ds[j], events[j], ds[j + 1]);
    RollbackMeaning(units, ds[j], ds[j + 1]);
  }

  /** What a completed rollback with effective commands leaves: the captured host, but for the
      persistent rules, exactly when the captured services were coherent and every edited table was listed. */
  lemma RollbackMeaning(units: Units, d: Deployment, d': Deployment)
    requires Wellformed(units, d) && OnlyUnits(units, d.record.captured.services, d.host.services)
    requires d'.host.rules == d.record.Restore(d.host.rules) && d'.host.ipForward == d.record.captured.ipForward
    requires d'.host.services == RestoreServices(units, d.host.services, d.record.captured.services)
    ensures d'.host.(persistent := d.record.captured.persistent) == d.record.captured <==>
      units.Coherent(d.record.captured.services) && d.record.Covers(d.host.rules)
  {
    var captured, now := d.record.captured, d'.host.services;
    RestorationExact(units, d.host.services, captured.services);
    if units.Coherent(captured.services) {
      forall unit | unit in now ensures now[unit] == captured.services[unit] {}
      assert now == captured.services;
    }
  }

  /** The exception is real: a confirm interrupted after saving, then the timer, leaves the
      activated rules persistent although the status is rolled_back. This is the only way. */
  lemma InterruptedConfirmPersists(units: Units, d: Deployment) returns (ds: seq<Deployment>, events: seq<Event>)
    requires Wellformed(units, d) && d.record.status == Pending && d.timer
    requires d.host.persistent == d.record.captured.persistent != Some(d.host.rules)
    ensures Run(units, true, ds, events) && ds[0] == d && events == [Confirming(FailedAfterSave), Timer(Done)]
    ensures ds[2].record.status == RolledBack && ds[2].host.persistent != d.record.captured.persistent
  {
    var saved := d.(host := d.host.(persistent := Some(d.host.rules)));
    var final := AfterTimer(units, saved);
    ds, events := [d, saved, final], [Confirming(FailedAfterSave), Timer(Done)];
    assert Step(units, true, d, events[0], saved);
    StepKeepsWellformed(units, true, d, events[0], saved);
    TimerRollsBack(units, saved);
    StepKeepsWellformed(units, true, saved, events[1], final);
  }

  /** The state after a timer-driven rollback in which every command takes effect. */
  ghost function AfterTimer(units: Units, d: Deployment): Deployment
    requires Wellformed(units, d)
  {
    var captured := d.record.captured;
    Deployment(
      Host(d.record.Restore(d.host.rules), captured.ipForward,
           RestoreServices(units, d.host.services, captured.services), d.host.persistent),
      d.record.(status := RolledBack),
      d.timer)
  }

  lemma TimerRollsBack(units: Units, d: Deployment)
    requires Wellformed(units, d) && d.record.status == Pending && d.timer
    ensures Step(units, true, d, Timer(Done), AfterTimer(units, d))
  {
    RestorationExact(units, d.host.services, d.record.captured.services);
  }

  /** An edited table that was not listed stays as it is: here the activated NAT rules outlive the rollback. */
  lemma UnlistedTableStays(units: Units, d: Deployment) returns (ds: seq<Deployment>, events: seq<Event>)
    requires Started(units, d) && d.timer
    requires !d.record.listed.masq && d.host.rules.masq != d.record.captured.rules.masq
    ensures Run(units, true, ds, events) && ds[0] == d && events == [Timer(Done)]
    ensures ds[1].record.status == RolledBack && ds[1].host.rules.masq == d.host.rules.masq
  {
    ds, events := [d, AfterTimer(units, d)], [Timer(Done)];
    TimerRollsBack(units, d);
    StepKeepsWellformed(units, true, d, events[0], ds[1]);
  }
}
