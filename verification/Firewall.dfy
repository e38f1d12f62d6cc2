/** The firewall edit of scripts/snarkypuss-activate.py and what it does to traffic. */
module Firewall {
  import opened Prelude

  // ---------------------------------------------------------------- Rules

  /** What a rule looks at. `Other` stands for any match the scripts never write. */
  datatype Match =
    | Always
    | Established
    | FromTunnel(tunnel: string, network: string)
    | FromNetwork(network: string)
    | Other(text: string)

  /** What a matching rule does. `Note` is a non-terminating target such as LOG. */
  datatype Target = Verdict(name: string) | Return | Jump(chain: string) | Note(text: string)

  datatype Rule = Rule(test: Match, target: Target)

  type Chains = map<string, seq<Rule>>

  /** The facts about a packet that rules can test. */
  datatype Packet = Packet(interface: string, networks: set<string>, established: bool, traits: set<string>)

  datatype Config = Config(tunnel: string, network: string)

  const FORWARD := "FORWARD"
  const POSTROUTING := "POSTROUTING"
  const FORWARD_CHAIN := "SNARKYPUSS_FORWARD"
  const NAT_CHAIN := "SNARKYPUSS_NAT"
  const ACCEPT := "ACCEPT"
  const MASQUERADE := "MASQUERADE"

  function OwnedJump(own: string): Rule { Rule(Always, Jump(own)) }

  function ForwardRules(config: Config): seq<Rule> {
    [Rule(Established, Verdict(ACCEPT)),
     Rule(FromTunnel(config.tunnel, config.network), Verdict(ACCEPT)),
     Rule(Always, Return)]
  }

  function NatRules(config: Config): seq<Rule> {
    [Rule(FromNetwork(config.network), Verdict(MASQUERADE)), Rule(Always, Return)]
  }

  // ---------------------------------------------------------------- Traversal

  predicate Matches(test: Match, packet: Packet) {
    match test
    case Always => true
    case Established => packet.established
    case FromTunnel(tunnel, network) => packet.interface == tunnel && network in packet.networks
    case FromNetwork(network) => network in packet.networks
    case Other(text) => text in packet.traits
  }

  /** The verdict of a rule list, or None when the packet falls off its end or returns.
      `open` holds the chains not being traversed already: the kernel refuses rule
      sets with jump loops, so on those it accepts the bound is never met. */
  function Traverse(chains: Chains, rules: seq<Rule>, packet: Packet, open: set<string>): Option<string>
    decreases open, |rules|
  {
    if rules == [] then None
    else if !Matches(rules[0].test, packet) then Traverse(chains, rules[1..], packet, open)
    else
      match rules[0].target
      case Verdict(name) => Some(name)
      case Return => None
      case Note(_) => Traverse(chains, rules[1..], packet, open)
      case Jump(chain) =>
        if chain in open && chain in chains then
          var inner := Traverse(chains, chains[chain], packet, open - {chain});
          if inner.Some? then inner else Traverse(chains, rules[1..], packet, open)
        else Traverse(chains, rules[1..], packet, open)
  }

  /** The fate of a packet at a built-in chain with the given policy. */
  function Decide(chains: Chains, hook: string, policy: string, packet: Packet): string
    requires hook in chains
  {
    match Traverse(chains, chains[hook], packet, chains.Keys - {hook})
    case Some(verdict) => verdict
    case None => policy
  }

  // ---------------------------------------------------------------- References

  predicate Mentions(rules: seq<Rule>, own: string) {
    exists rule :: rule in rules && rule.target == Jump(own)
  }

  /** What `iptables -X` looks for. */
  predicate Referenced(chains: Chains, own: string) {
    exists chain :: chain in chains && Mentions(chains[chain], own)
  }

  /** Kernel invariant: a jump always leads to an existing chain. */
  ghost predicate Closed(chains: Chains) {
    forall chain, rule :: chain in chains && rule in chains[chain] && rule.target.Jump? ==> rule.target.chain in chains
  }

  /** Some rule other than the plain jump in `hook` leads to the owned chain. */
  ghost predicate ForeignReference(chains: Chains, hook: string, own: string) {
    exists chain, rule :: chain in chains && chain != own && rule in chains[chain]
      && rule.target == Jump(own) && !(chain == hook && rule == OwnedJump(own))
  }

  // ---------------------------------------------------------------- Editing a list of rules

  function Strip(rules: seq<Rule>, owned: Rule): (rest: seq<Rule>)
    ensures owned !in rest
    ensures forall rule :: rule in rest <==> rule in rules && rule != owned
  {
    if rules == [] then []
    else (if rules[0] == owned then [] else [rules[0]]) + Strip(rules[1..], owned)
  }

  /** `iptables -D` removes the first equal rule only. */
  function RemoveFirst(rules: seq<Rule>, owned: Rule): (rest: seq<Rule>)
    requires owned in rules
    ensures |rest| == |rules| - 1
  {
    if rules[0] == owned then rules[1..] else [rules[0]] + RemoveFirst(rules[1..], owned)
  }

  lemma {:induction false} StripAfterRemove(rules: seq<Rule>, owned: Rule)
    requires owned in rules
    ensures Strip(RemoveFirst(rules, owned), owned) == Strip(rules, owned)
  {
    if rules[0] != owned {
      StripAfterRemove(rules[1..], owned);
      var rest := RemoveFirst(rules, owned);
      assert rest[0] == rules[0] && rest[1..] == RemoveFirst(rules[1..], owned);
    }
  }

  lemma {:induction false} StripOfClean(rules: seq<Rule>, owned: Rule)
    requires owned !in rules
    ensures Strip(rules, owned) == rules
  {
    if rules != [] { StripOfClean(rules[1..], owned); }
  }

  // ---------------------------------------------------------------- Specification of the edit

  /** The chains after a successful activation: one jump on top of the hook, no other
      plain jump to the owned chain, every other rule kept in order. */
  function Installed(chains: Chains, hook: string, own: string, rules: seq<Rule>): Chains
    requires hook in chains
  {
    chains[hook := [OwnedJump(own)] + Strip(chains[hook], OwnedJump(own))][own := rules]
  }

  /** The old rules with the plain jumps to the owned chain taken out of the hook. */
  function WithoutOwned(chains: Chains, hook: string, own: string): Chains
    requires hook in chains
  {
    chains[hook := Strip(chains[hook], OwnedJump(own))]
  }

  /** The last activation wins, from any number of stale jumps; hence activating is idempotent. */
  lemma LastActivationWins(chains: Chains, hook: string, own: string, first: seq<Rule>, second: seq<Rule>)
    requires hook in chains && hook != own
    ensures Installed(Installed(chains, hook, own, first), hook, own, second) == Installed(chains, hook, own, second)
  {
    var kept := Strip(chains[hook], OwnedJump(own));
    StripOfClean(kept, OwnedJump(own));
    assert ([OwnedJump(own)] + kept)[1..] == kept;
    assert Strip([OwnedJump(own)] + kept, OwnedJump(own)) == kept;
  }

  /** An activated table can be activated again: jumps still lead to existing chains and the
      new rules introduce no foreign reference. */
  lemma ActivationRepeatable(chains: Chains, hook: string, own: string, rules: seq<Rule>)
    requires hook in chains && hook != own && Closed(chains)
    requires forall rule :: rule in rules ==> !rule.target.Jump?
    ensures Closed(Installed(chains, hook, own, rules))
    ensures !ForeignReference(chains, hook, own) ==> !ForeignReference(Installed(chains, hook, own, rules), hook, own)
  {
    var now := Installed(chains, hook, own, rules);
    forall chain: string, rule: Rule | chain in now && rule in now[chain] && rule.target.Jump?
      ensures rule.target.chain in now
      ensures !ForeignReference(chains, hook, own) && rule.target.chain == own ==>
        chain == hook && rule == OwnedJump(own)
    {
      assert chain != own;
      if chain == hook && rule != OwnedJump(own) {
        assert rule in Strip(chains[hook], OwnedJump(own));
      }
      assert rule == OwnedJump(own) || rule in chains[chain];
    }
  }

  // ---------------------------------------------------------------- Meaning

  /** Traversal does not depend on a chain that no rule leads to. */
  lemma {:induction false} UnreachedChain(
      c1: Chains, c2: Chains, hook: string, own: string,
      rules: seq<Rule>, packet: Packet, open1: set<string>, open2: set<string>)
    requires forall chain :: chain != own && chain != hook ==>
      (chain in c1 <==> chain in c2) && (chain in c1 ==> c1[chain] == c2[chain] && !Mentions(c1[chain], own))
    requires open1 - {own} == open2 - {own} && hook !in open1 && hook !in open2
    requires !Mentions(rules, own)
    ensures Traverse(c1, rules, packet, open1) == Traverse(c2, rules, packet, open2)
    decreases open1, |rules|
  {
    if rules != [] {
      assert forall rule :: rule in rules[1..] ==> rule in rules;
      UnreachedChain(c1, c2, hook, own, rules[1..], packet, open1, open2);
      var target := rules[0].target;
      assert rules[0] in rules;
      if target.Jump? {
        assert target.chain != own;
        assert target.chain in open1 <==> target.chain in open1 - {own};
        assert target.chain in open2 <==> target.chain in open2 - {own};
      }
      if target.Jump? && target.chain in open1 && target.chain in c1 {
        assert open1 - {target.chain} - {own} == (open1 - {own}) - {target.chain};
        assert open2 - {target.chain} - {own} == (open2 - {own}) - {target.chain};
        UnreachedChain(c1, c2, hook, own, c1[target.chain], packet, open1 - {target.chain}, open2 - {target.chain});
      }
    }
  }

  lemma CleanOutsideHook(chains: Chains, hook: string, own: string)
    requires hook in chains && hook != own && !ForeignReference(chains, hook, own)
    ensures forall chain :: chain in chains && chain != hook && chain != own ==> !Mentions(chains[chain], own)
    ensures !Mentions(Strip(chains[hook], OwnedJump(own)), own)
  {
  }

  /** Below the jump, an activated hook decides as the old hook without owned jumps. */
  lemma RestOfHook(chains: Chains, hook: string, own: string, rules: seq<Rule>, packet: Packet)
    requires hook in chains && hook != own && !ForeignReference(chains, hook, own)
    ensures
      var now := Installed(chains, hook, own, rules);
      var before := WithoutOwned(chains, hook, own);
      Traverse(now, before[hook], packet, now.Keys - {hook}) ==
        Traverse(before, before[hook], packet, before.Keys - {hook})
  {
    CleanOutsideHook(chains, hook, own);
    var now := Installed(chains, hook, own, rules);
    var before := WithoutOwned(chains, hook, own);
    UnreachedChain(now, before, hook, own, before[hook], packet, now.Keys - {hook}, before.Keys - {hook});
  }

  /** The hook first consults the owned rules, then the rest. */
  lemma TopOfHook(chains: Chains, hook: string, own: string, rules: seq<Rule>, packet: Packet)
    requires hook in chains && hook != own
    ensures
      var now := Installed(chains, hook, own, rules);
      var inner := Traverse(now, rules, packet, now.Keys - {hook} - {own});
      Traverse(now, now[hook], packet, now.Keys - {hook}) ==
      if inner.Some? then inner
      else Traverse(now, WithoutOwned(chains, hook, own)[hook], packet, now.Keys - {hook})
  {
    var now := Installed(chains, hook, own, rules);
    assert now[hook][1..] == WithoutOwned(chains, hook, own)[hook];
  }

  lemma OwnedForwardVerdict(chains: Chains, config: Config, packet: Packet, open: set<string>)
    ensures Traverse(chains, ForwardRules(config), packet, open) ==
      if packet.established || (packet.interface == config.tunnel && config.network in packet.networks)
      then Some(ACCEPT) else None
  {
    var rules := ForwardRules(config);
    var last := [Rule(Always, Return)];
    assert rules[1..][1..] == last;
    assert Traverse(chains, last, packet, open) == None;
    assert rules[1..][0] == rules[1];
  }

  lemma OwnedNatVerdict(chains: Chains, config: Config, packet: Packet, open: set<string>)
    ensures Traverse(chains, NatRules(config), packet, open) ==
      if config.network in packet.networks then Some(MASQUERADE) else None
  {
    assert NatRules(config)[1..] == [Rule(Always, Return)];
  }

  /** FORWARD after activation: reply traffic and tunnel traffic of the client network is
      accepted, every other packet is treated as before. */
  lemma ForwardMeaning(chains: Chains, config: Config, policy: string, packet: Packet)
    requires FORWARD in chains && !ForeignReference(chains, FORWARD, FORWARD_CHAIN)
    ensures Decide(Installed(chains, FORWARD, FORWARD_CHAIN, ForwardRules(config)), FORWARD, policy, packet) ==
      if packet.established || (packet.interface == config.tunnel && config.network in packet.networks) then ACCEPT
      else Decide(WithoutOwned(chains, FORWARD, FORWARD_CHAIN), FORWARD, policy, packet)
  {
    var now := Installed(chains, FORWARD, FORWARD_CHAIN, ForwardRules(config));
    TopOfHook(chains, FORWARD, FORWARD_CHAIN, ForwardRules(config), packet);
    OwnedForwardVerdict(now, config, packet, now.Keys - {FORWARD} - {FORWARD_CHAIN});
    RestOfHook(chains, FORWARD, FORWARD_CHAIN, ForwardRules(config), packet);
  }

  /** POSTROUTING after activation masquerades exactly the client network; other packets as before. */
  lemma NatMeaning(chains: Chains, config: Config, policy: string, packet: Packet)
    requires POSTROUTING in chains && !ForeignReference(chains, POSTROUTING, NAT_CHAIN)
    ensures Decide(Installed(chains, POSTROUTING, NAT_CHAIN, NatRules(config)), POSTROUTING, policy, packet) ==
      if config.network in packet.networks then MASQUERADE
      else Decide(WithoutOwned(chains, POSTROUTING, NAT_CHAIN), POSTROUTING, policy, packet)
  {
    var now := Installed(chains, POSTROUTING, NAT_CHAIN, NatRules(config));
    TopOfHook(chains, POSTROUTING, NAT_CHAIN, NatRules(config), packet);
    OwnedNatVerdict(now, config, packet, now.Keys - {POSTROUTING} - {NAT_CHAIN});
    RestOfHook(chains, POSTROUTING, NAT_CHAIN, NatRules(config), packet);
  }

  // ---------------------------------------------------------------- Commands

  /** One kernel table and the iptables commands on it. A command whose precondition fails
      changes nothing and reports failure; on a table that is not `reliable` any command may
      also fail for outside reasons (a busy lock, a missing binary), again changing nothing. */
  class RuleTable {
    var chains: Chains
    const reliable: bool

    constructor (chains: Chains, reliable: bool)
      ensures this.chains == chains && this.reliable == reliable
    {
      this.chains := chains;
      this.reliable := reliable;
    }

    /** -C: is the rule there? */
    method Check(chain: string, rule: Rule) returns (found: bool)
      ensures found ==> chain in chains && rule in chains[chain]
      ensures reliable && chain in chains && rule in chains[chain] ==> found
    {
      var works: bool := *;
      found := (works || reliable) && chain in chains && rule in chains[chain];
    }

    /** -D: delete the first equal rule. */
    method Delete(chain: string, rule: Rule) returns (ok: bool)
      modifies this
      ensures ok ==> chain in old(chains) && rule in old(chains)[chain]
      ensures ok ==> chains == old(chains)[chain := RemoveFirst(old(chains)[chain], rule)]
      ensures !ok ==> chains == old(chains)
      ensures reliable && chain in old(chains) && rule in old(chains)[chain] ==> ok
    {
      var works: bool := *;
      ok := (works || reliable) && chain in chains && rule in chains[chain];
      if ok { chains := chains[chain := RemoveFirst(chains[chain], rule)]; }
    }

    /** -F: empty a chain. */
    method Flush(chain: string) returns (ok: bool)
      modifies this
      ensures ok ==> chain in old(chains) && chains == old(chains)[chain := []]
      ensures !ok ==> chains == old(chains)
      ensures reliable && chain in old(chains) ==> ok
    {
      var works: bool := *;
      ok := (works || reliable) && chain in chains;
      if ok { chains := chains[chain := []]; }
    }

    /** -X: delete an empty chain that no rule leads to. */
    method DeleteChain(chain: string) returns (ok: bool)
      modifies this
      ensures ok ==> chain in old(chains) && old(chains)[chain] == [] && !Referenced(old(chains), chain)
      ensures ok ==> chains == old(chains) - {chain}
      ensures !ok ==> chains == old(chains)
      ensures reliable && chain in old(chains) && old(chains)[chain] == [] && !Referenced(old(chains), chain) ==> ok
    {
      var works: bool := *;
      ok := (works || reliable) && chain in chains && chains[chain] == []
        && forall name | name in chains :: forall rule | rule in chains[name] :: rule.target != Jump(chain);
      if ok { chains := chains - {chain}; }
    }

    /** -N: create a chain. */
    method NewChain(chain: string) returns (ok: bool)
      modifies this
      ensures ok ==> chain !in old(chains) && chains == old(chains)[chain := []]
      ensures !ok ==> chains == old(chains)
      ensures reliable && chain !in old(chains) ==> ok
    {
      var works: bool := *;
      ok := (works || reliable) && chain !in chains;
      if ok { chains := chains[chain := []]; }
    }

    /** -A: append a rule. */
    method Append(chain: string, rule: Rule) returns (ok: bool)
      modifies this
      ensures ok ==> chain in old(chains) && chains == old(chains)[chain := old(chains)[chain] + [rule]]
      ensures !ok ==> chains == old(chains)
      ensures reliable && chain in old(chains) ==> ok
    {
      var works: bool := *;
      ok := (works || reliable) && chain in chains;
      if ok { chains := chains[chain := chains[chain] + [rule]]; }
    }

    /** -I chain 1: insert on top. */
    method InsertFirst(chain: string, rule: Rule) returns (ok: bool)
      modifies this
      ensures ok ==> chain in old(chains) && chains == old(chains)[chain := [rule] + old(chains)[chain]]
      ensures !ok ==> chains == old(chains)
      ensures reliable && chain in old(chains) ==> ok
    {
      var works: bool := *;
      ok := (works || reliable) && chain in chains;
      if ok { chains := chains[chain := [rule] + chains[chain]]; }
    }
  }

  /** The part of a table that neither removal nor installation may touch. */
  function Elsewhere(chains: Chains, hook: string, own: string): Chains {
    chains - {hook, own}
  }

  /** The probe-and-delete loop: takes plain jumps out until the probe no longer finds one. */
  method RemoveJumps(table: RuleTable, hook: string, own: string) returns (ok: bool)
    requires hook in table.chains && hook != own
    modifies table
    ensures table.chains.Keys == old(table.chains).Keys
    ensures table.chains == old(table.chains)[hook := table.chains[hook]]
    ensures Strip(table.chains[hook], OwnedJump(own)) == Strip(old(table.chains)[hook], OwnedJump(own))
    ensures forall rule :: rule in table.chains[hook] ==> rule in old(table.chains)[hook]
    ensures table.reliable ==> ok && OwnedJump(own) !in table.chains[hook]
  {
    var jump := OwnedJump(own);
    var found := table.Check(hook, jump);
    while found
      invariant hook in table.chains && table.chains.Keys == old(table.chains).Keys
      invariant table.chains == old(table.chains)[hook := table.chains[hook]]
      invariant Strip(table.chains[hook], jump) == Strip(old(table.chains)[hook], jump)
      invariant forall rule :: rule in table.chains[hook] ==> rule in old(table.chains)[hook]
      invariant found ==> jump in table.chains[hook]
      invariant table.reliable && !found ==> jump !in table.chains[hook]
      decreases |table.chains[hook]|, found
    {
      StripAfterRemove(table.chains[hook], jump);
      RemoveFirstMembers(table.chains[hook], jump);
      var deleted := table.Delete(hook, jump);
      if !deleted { return false; }
      found := table.Check(hook, jump);
    }
    return true;
  }

  /** What removal may leave: everything outside hook and owned chain, and the hook's other rules in order. */
  ghost predicate OnlyJumpsRemoved(before: Chains, after: Chains, hook: string, own: string) {
    && hook in before && hook in after
    && Elsewhere(after, hook, own) == Elsewhere(before, hook, own)
    && Strip(after[hook], OwnedJump(own)) == Strip(before[hook], OwnedJump(own))
  }

  /** When the owned chain is gone, so are all plain jumps, and no other rule led to it. */
  ghost predicate RemovedCleanly(before: Chains, after: Chains, hook: string, own: string)
    requires hook in before && hook in after
  {
    own !in after ==> (after[hook] == Strip(before[hook], OwnedJump(own)) && !ForeignReference(before, hook, own))
  }

  /** remove_owned_firewall on one table: a failing flush or chain deletion is ignored. When it
      returns ok, either every plain jump is gone or the owned chain is still there, so that
      creating it again will be refused. */
  method RemoveOwned(table: RuleTable, hook: string, own: string) returns (ok: bool)
    requires hook in table.chains && hook != own && Closed(table.chains)
    modifies table
    ensures OnlyJumpsRemoved(old(table.chains), table.chains, hook, own)
    ensures ok ==> RemovedCleanly(old(table.chains), table.chains, hook, own)
    ensures table.reliable ==> ok
    ensures table.reliable ==> (own in table.chains <==>
      own in old(table.chains) && ForeignReference(old(table.chains), hook, own))
  {
    ghost var before := table.chains;
    ok := RemoveJumps(table, hook, own);
    if !ok { return; }
    ghost var stripped := table.chains;
    EmptyAndDelete(table, own);
    AfterDeletion(before, stripped, table.chains, hook, own);
    if table.reliable { SurvivesByReference(before, stripped, table.chains, hook, own); }
  }

  /** Flush and delete the owned chain. The deletion takes effect on an emptied chain that nothing leads to. */
  method EmptyAndDelete(table: RuleTable, own: string)
    modifies table
    ensures table.chains == old(table.chains)
      || (own in old(table.chains) && table.chains == old(table.chains)[own := []])
      || (Deletable(old(table.chains), own) && table.chains == old(table.chains) - {own})
    ensures table.reliable ==> table.chains == Cleared(old(table.chains), own)
  {
    var flushed := table.Flush(own);
    ghost var emptied := table.chains;
    var deleted := table.DeleteChain(own);
    assert emptied - {own} == old(table.chains) - {own};
    if own in emptied && emptied[own] == [] { EmptyChainRefersNowhere(emptied, own); }
  }

  /** A chain to which no other chain leads. */
  predicate Deletable(chains: Chains, own: string) {
    own in chains && !Referenced(chains - {own}, own)
  }

  /** Deleted if possible, else emptied. */
  function Cleared(chains: Chains, own: string): Chains {
    if Deletable(chains, own) then chains - {own} else if own in chains then chains[own := []] else chains
  }

  lemma EmptyChainRefersNowhere(chains: Chains, own: string)
    requires own in chains && chains[own] == []
    ensures Referenced(chains, own) <==> Referenced(chains - {own}, own)
  {
    if Referenced(chains, own) {
      var chain :| chain in chains && Mentions(chains[chain], own);
      assert chain in chains - {own} && (chains - {own})[chain] == chains[chain];
    }
  }

  /** Frame, order and clean removal, whatever the deletion did. */
  lemma AfterDeletion(before: Chains, stripped: Chains, after: Chains, hook: string, own: string)
    requires hook in before && hook in stripped && hook != own && Closed(before)
    requires stripped == before[hook := stripped[hook]]
    requires forall rule :: rule in stripped[hook] ==> rule in before[hook]
    requires Strip(stripped[hook], OwnedJump(own)) == Strip(before[hook], OwnedJump(own))
    requires after == stripped || (own in stripped && after == stripped[own := []])
      || (Deletable(stripped, own) && after == stripped - {own})
    ensures OnlyJumpsRemoved(before, after, hook, own) && RemovedCleanly(before, after, hook, own)
  {
    assert after[hook] == stripped[hook];
    assert Elsewhere(after, hook, own) == Elsewhere(before, hook, own);
    if own !in after {
      if own in before { NothingLeads(before, stripped, hook, own); } else { NoChainNoReference(before, hook, own); }
      StripOfClean(stripped[hook], OwnedJump(own));
    }
  }

  /** Without the owned chain no rule leads to it. */
  lemma NoChainNoReference(chains: Chains, hook: string, own: string)
    requires Closed(chains) && own !in chains && hook in chains
    ensures !ForeignReference(chains, hook, own) && OwnedJump(own) !in chains[hook]
  {
  }

  /** If a chain can be deleted after some plain jumps were removed, none is left and no foreign rule was there. */
  lemma NothingLeads(before: Chains, stripped: Chains, hook: string, own: string)
    requires hook in before && hook in stripped && hook != own && stripped == before[hook := stripped[hook]]
    requires Strip(stripped[hook], OwnedJump(own)) == Strip(before[hook], OwnedJump(own))
    requires Deletable(stripped, own)
    ensures OwnedJump(own) !in stripped[hook] && !ForeignReference(before, hook, own)
  {
    var rest := stripped - {own};
    var top := rest[hook];
    assert OwnedJump(own) in top ==> Mentions(top, own);
    forall rule: Rule | rule in before[hook] && rule.target == Jump(own) ensures rule == OwnedJump(own) {
      assert rule != OwnedJump(own) ==> rule in Strip(top, OwnedJump(own));
      assert rule in top ==> Mentions(top, own);
    }
    forall chain: string, rule: Rule | chain in rest && chain != hook && rule in rest[chain]
      ensures rule.target != Jump(own)
    {
      var rules := rest[chain];
      assert rule.target == Jump(own) ==> Mentions(rules, own);
    }
    assert forall chain :: chain in before && chain != own ==> chain in rest;
    assert forall chain :: chain in rest && chain != hook ==> rest[chain] == before[chain];
  }

  /** With a reliable iptables the owned chain survives exactly by a foreign reference. */
  lemma SurvivesByReference(before: Chains, stripped: Chains, after: Chains, hook: string, own: string)
    requires hook in before && hook in stripped && hook != own && stripped == before[hook := stripped[hook]]
    requires OwnedJump(own) !in stripped[hook]
    requires Strip(stripped[hook], OwnedJump(own)) == Strip(before[hook], OwnedJump(own))
    requires after == Cleared(stripped, own)
    ensures own in after <==> own in before && ForeignReference(before, hook, own)
  {
    StripOfClean(stripped[hook], OwnedJump(own));
    assert stripped == WithoutOwned(before, hook, own);
    if own in before {
      var emptied := stripped[own := []];
      ReferencesAfterStrip(before, hook, own);
      EmptyChainRefersNowhere(emptied, own);
      assert emptied - {own} == stripped - {own};
    }
  }

  lemma {:induction false} RemoveFirstMembers(rules: seq<Rule>, owned: Rule)
    requires owned in rules
    ensures forall rule :: rule in RemoveFirst(rules, owned) ==> rule in rules
  {
    if rules[0] != owned {
      RemoveFirstMembers(rules[1..], owned);
    }
  }

  /** Once the plain jumps are gone and the owned chain is empty, it is referenced exactly by foreign rules. */
  lemma ReferencesAfterStrip(chains: Chains, hook: string, own: string)
    requires hook in chains && hook != own
    ensures Referenced(WithoutOwned(chains, hook, own)[own := []], own) <==> ForeignReference(chains, hook, own)
  {
    var after := WithoutOwned(chains, hook, own)[own := []];
    if ForeignReference(chains, hook, own) {
      var chain, rule :| chain in chains && chain != own && rule in chains[chain]
        && rule.target == Jump(own) && !(chain == hook && rule == OwnedJump(own));
      assert rule in after[chain];
      assert Mentions(after[chain], own);
    }
  }

  /** Create the owned chain with its rules and put the jump on top of the hook. */
  method Install(table: RuleTable, hook: string, own: string, rules: seq<Rule>) returns (ok: bool)
    requires hook in table.chains && hook != own
    modifies table
    ensures Elsewhere(table.chains, hook, own) == Elsewhere(old(table.chains), hook, own) && hook in table.chains
    ensures ok ==> own !in old(table.chains)
    ensures ok ==> table.chains == old(table.chains)[own := rules][hook := [OwnedJump(own)] + old(table.chains)[hook]]
    ensures table.reliable ==> (ok <==> own !in old(table.chains))
  {
    ghost var before := table.chains;
    ok := table.NewChain(own);
    if !ok { return; }
    for i := 0 to |rules|
      invariant table.chains == before[own := rules[..i]]
    {
      ok := table.Append(own, rules[i]);
      if !ok { return; }
      assert rules[..i + 1] == rules[..i] + [rules[i]];
    }
    assert rules[..|rules|] == rules;
    ok := table.InsertFirst(hook, OwnedJump(own));
  }

  /** The packets of FORWARD: reply traffic and tunnel traffic of the client network is accepted, every
      other packet is treated as before without owned jumps. */
  ghost predicate ForwardsAs(before: Chains, now: Chains, config: Config)
    requires FORWARD in before && FORWARD in now
  {
    forall policy: string, packet: Packet :: Decide(now, FORWARD, policy, packet) ==
      if packet.established || (packet.interface == config.tunnel && config.network in packet.networks) then ACCEPT
      else Decide(WithoutOwned(before, FORWARD, FORWARD_CHAIN), FORWARD, policy, packet)
  }

  /** The packets of POSTROUTING: those of the client network are masqueraded, all others treated as before. */
  ghost predicate MasqueradesAs(before: Chains, now: Chains, config: Config)
    requires POSTROUTING in before && POSTROUTING in now
  {
    forall policy: string, packet: Packet :: Decide(now, POSTROUTING, policy, packet) ==
      if config.network in packet.networks then MASQUERADE
      else Decide(WithoutOwned(before, POSTROUTING, NAT_CHAIN), POSTROUTING, policy, packet)
  }

  lemma InstalledForwards(before: Chains, config: Config)
    requires FORWARD in before && !ForeignReference(before, FORWARD, FORWARD_CHAIN)
    ensures ForwardsAs(before, Installed(before, FORWARD, FORWARD_CHAIN, ForwardRules(config)), config)
  {
    forall policy: string, packet: Packet { ForwardMeaning(before, config, policy, packet); }
  }

  lemma InstalledMasquerades(before: Chains, config: Config)
    requires POSTROUTING in before && !ForeignReference(before, POSTROUTING, NAT_CHAIN)
    ensures MasqueradesAs(before, Installed(before, POSTROUTING, NAT_CHAIN, NatRules(config)), config)
  {
    forall policy: string, packet: Packet { NatMeaning(before, config, policy, packet); }
  }

  /** apply_firewall. Whatever fails, a reported success means both tables are fully installed and
      treat every packet as promised; with a reliable iptables it succeeds exactly when no foreign rule holds an
      existing owned chain. */
  method ApplyFirewall(filter: RuleTable, masq: RuleTable, config: Config) returns (ok: bool)
    requires filter != masq && FORWARD in filter.chains && POSTROUTING in masq.chains
    requires Closed(filter.chains) && Closed(masq.chains)
    modifies filter, masq
    ensures ok ==> filter.chains == Installed(old(filter.chains), FORWARD, FORWARD_CHAIN, ForwardRules(config))
    ensures ok ==> masq.chains == Installed(old(masq.chains), POSTROUTING, NAT_CHAIN, NatRules(config))
    ensures Elsewhere(filter.chains, FORWARD, FORWARD_CHAIN) == Elsewhere(old(filter.chains), FORWARD, FORWARD_CHAIN)
    ensures Elsewhere(masq.chains, POSTROUTING, NAT_CHAIN) == Elsewhere(old(masq.chains), POSTROUTING, NAT_CHAIN)
    ensures ok ==>
      ForwardsAs(old(filter.chains), filter.chains, config) && MasqueradesAs(old(masq.chains), masq.chains, config)
    ensures filter.reliable && masq.reliable ==> (ok <==>
      !(FORWARD_CHAIN in old(filter.chains) && ForeignReference(old(filter.chains), FORWARD, FORWARD_CHAIN)) &&
      !(NAT_CHAIN in old(masq.chains) && ForeignReference(old(masq.chains), POSTROUTING, NAT_CHAIN)))
  {
    ok := RemoveOwned(filter, FORWARD, FORWARD_CHAIN);
    if !ok { return; }
    ok := RemoveOwned(masq, POSTROUTING, NAT_CHAIN);
    if !ok { return; }
    ok := Install(filter, FORWARD, FORWARD_CHAIN, ForwardRules(config));
    if !ok { return; }
    SameOutside(filter.chains, old(filter.chains), FORWARD, FORWARD_CHAIN, ForwardRules(config));
    ok := Install(masq, POSTROUTING, NAT_CHAIN, NatRules(config));
    if !ok { return; }
    SameOutside(masq.chains, old(masq.chains), POSTROUTING, NAT_CHAIN, NatRules(config));
    InstalledForwards(old(filter.chains), config);
    InstalledMasquerades(old(masq.chains), config);
  }

  lemma SameOutside(now: Chains, before: Chains, hook: string, own: string, rules: seq<Rule>)
    requires hook in before && hook in now && own in now && hook != own
    requires Elsewhere(now, hook, own) == Elsewhere(before, hook, own)
    requires now[own] == rules && now[hook] == [OwnedJump(own)] + Strip(before[hook], OwnedJump(own))
    ensures now == Installed(before, hook, own, rules)
  {
    var spec := Installed(before, hook, own, rules);
    forall chain ensures chain in now <==> chain in spec
      ensures chain in now && chain in spec ==> now[chain] == spec[chain]
    {
      assert chain in Elsewhere(now, hook, own) <==> chain in Elsewhere(before, hook, own);
      if chain in Elsewhere(now, hook, own) {
        assert Elsewhere(now, hook, own)[chain] == Elsewhere(before, hook, own)[chain];
      }
    }
  }
}
