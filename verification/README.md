# Verification model of the Snarkypuss gateway

Snarkypuss is a WireGuard gateway whose upstream is a commercial VPN. A privileged control daemon moves it
between four modes (VPN, LOCKED, DIRECT, UNKNOWN) and stores the catalogue of VPN destinations; scripts
migrate, configure, activate and roll back the host; a dashboard edits the catalogue. This project models
that behaviour in Dafny and proves what it is meant to guarantee. `dafny verify dfyconfig.toml` checks everything.

| module | what it models |
|---|---|
| `Control`, `ControlSystem`, `ControlService` | the daemon: one operation as steps (each provider call, repository call and assignment on its own), any number of worker threads interleaved with VPN drops and STATUS requests, and the service object in its own imperative form, proved to run exactly those steps |
| `Catalogue` | optimistic catalogue replacement: the in-memory repository as specification, SQLite tables and transaction as implementation |
| `Firewall` | an iptables evaluator, the rule-editing loops, and what the edit does to packets |
| `Activation` | the pending / confirmed / rolled_back protocol with its timer, as a relation over whole runs and as the scripts' own commands |
| `Schema` | selector schemas and the depth-first cycle check |
| `OptionCache` | the dashboard's dependent fields, their invalidation, and late option responses |
| `WireGuard`, `Numerals` | printing and parsing WireGuard configuration, and the setup document between the two scripts |
| `Backup` | backup, restoration, atomic replacement and the preparation that undoes itself |
| `NordVpn` | selector validation, option discovery, connection arguments |
| `Alias` | alias normalisation and the search for an unused alias |
| `Framing` | length-prefixed frames over an arbitrarily chunked stream |
| `Slug` | the substitution of other characters by single underscores that aliases and discovered values share |
| `Prelude` | result types and the pigeonhole count |

How the environment is modelled. Every provider call may raise a provider error before or after its effect,
or return without having had it; the VPN may drop before any step and inside any call; reports may be
unreadable, and a report that is readable is true. Every iptables, systemctl, file-system and SQLite operation
may fail. A flag on those objects (`reliable`, `sure`, `willing`, `patient`, `generates`) says when a failure has
no outside cause, which lets contracts state exactly when an operation succeeds.

Where the code does less than its purpose suggests, the model keeps the code and states the exact condition:

* A rollback restores the captured services exactly when the captured state had no DNS service running
  without its tunnel unit (`Activation.RestorationExact`); the generated DNS unit has `Requires=` on the tunnel.
* A rolled-back activation that was never confirmed leaves the captured persistent rules exactly when no
  `confirm` failed after `netfilter-persistent save`, or the last such saved the same rules
  (`Activation.RolledBackPersistent`); `Activation.InterruptedConfirmPersists` exhibits the other case.
* With a working iptables, removing the firewall and installing it again fails exactly when some rule other than the plain jump leads
  to an existing owned chain (`Firewall.ApplyFirewall`).
* A refused DIRECT leaves protection off exactly when its restoring call was made without effect (the code
  ignores what that call raises or reports) and its disabling call took effect or protection was off before
  (`Control.FailedDirectExactly`, with the run of `Control.FailedDirectExposes`).
* A rollback brings back a table that was edited exactly when `iptables-save` listed it at the capture, which it
  does not do for a table that nothing has used (`Activation.RollbackRestores`, `Activation.UnlistedTableStays`).
* A discovered country of a single character is offered but refused by the validator
  (`NordVpn.DiscoveredCountryAccepted`).
* The generated setup document is refused exactly when the client has the server's own address
  (`WireGuard.MigrationKeepsGateway`): the parser lets that through, the reader does not.
* A catalogue with duplicate aliases or misplaced positions passes the daemon's own checks and fails in the
  repository's model validation, which the daemon does not catch: the operation ends as an internal error,
  without effect, exactly then (`Control.InternalErrorExactly`, with the request of
  `Control.MisplacedTargetUncaught`).

## Model

| member | source | states |
|---|---|---|
| ControlSystem.Serialisable | src/snarkyctl/control/daemon.py:177-201 | For every interleaving of any number of workers, STATUS requests, rejections and VPN drops: at most one worker operates, operations complete in the order in which they took the lock, and whenever the lock is free the provider, the repository, both catalogue views and every reply are those of the same operations run one at a time |
| ControlSystem.NextSerial | src/snarkyctl/control/daemon.py:177-201 | One event of any kind keeps the serial explanation of the present state, including that of the operation still running |
| ControlSystem.RejectionsHaveNoEffect | src/snarkyctl/control/daemon.py:191-197 | For every list of events: leaving out each request that an idle worker made while the lock was held gives a run that ends with the same provider, repository, views, lock, workers, remembered alias and records, and with the same history but for the rejections |
| ControlSystem.LockComesFree | src/snarkyctl/control/daemon.py:198-201 | From every reachable state with the lock held, six steps of the holder with whatever faults, and its release, free the lock |
| ControlSystem.FailClosed | src/snarkyctl/control/daemon.py:459-585 | Started with leak protection on, with drops and faults anywhere, also calls that silently do nothing: whenever the lock is free, protection is off if and only if the last operation that changed it is a DIRECT that succeeded or a DIRECT whose restoring call had no effect |
| ControlSystem.DisconnectIsProtected | src/snarkyctl/control/daemon.py:513-536 | In every reachable state in which a worker is about to issue the disconnect of a DISCONNECT, protection and firewall are on |
| ControlSystem.SuccessIsTruthful | src/snarkyctl/control/daemon.py:459-585 | When a success is reported, the state is what the reply claims: LOCKED is disconnected and protected, DIRECT is disconnected and unprotected, PROTECTED is protected; CONNECT and DISCONNECT never claim a disconnected mode that does not hold |
| ControlSystem.SnapshotsAgree | src/snarkyctl/control/daemon.py:298-370 | Whenever the lock is free, the in-memory catalogue is the stored one with reserved targets removed and positions renumbered, the alias map is that catalogue's, and the revision has grown by exactly the number of successful replacements |
| ControlSystem.NoTwoReplacementsShareARevision | src/snarkyctl/control/daemon.py:335-339 | Of all successful replacements in a run, each later one named a strictly larger expected revision |
| ControlSystem.ExpectedRevisionsDiffer | src/snarkyctl/control/daemon.py:335-339 | A successful replacement named exactly the initial revision plus the number of earlier successes |
| ControlSystem.ReadsSeeCommittedVersions | src/snarkyctl/control/daemon.py:289-394 | At any moment of any run the catalogue view is the editable view of what the repository held at some moment of that run, and the alias map is that of one such view |
| ControlSystem.NewestIsStored | src/snarkyctl/control/daemon.py:335-364 | In every reachable state the newest committed version is the editable view of what the repository holds |
| ControlSystem.AliasIsLastDialled | src/snarkyctl/control/daemon.py:475-481 | In every reachable state: unless a worker stands between the return of its connect call and the assignment of the alias, in particular whenever the lock is free, the remembered alias is none or that of the last connect call that returned; in that window it is none or that of the call before |
| ControlSystem.StoredSelectorsRevalidate | src/snarkyctl/control/daemon.py:325-339 | In every reachable state, also while an operation runs, each stored target was there at the start or revalidates to itself |
| ControlSystem.UndisturbedRequest | src/snarkyctl/control/daemon.py:177-201 | In every reachable state with the lock free: the request of an idle worker that meets no fault and no drop ends, within six steps, with exactly the state and the reply that `Control.Promised` names for it: the provider, repository and views it leaves, the target dialled, and VPN, LOCKED, DIRECT, the new catalogue or the refusal |
| ControlSystem.StatusOnlyForgets | src/snarkyctl/control/daemon.py:395-444 | A readable STATUS changes nothing but the remembered alias, which it clears exactly when it saw the VPN disconnected |
| Control.OperationsFinish | src/snarkyctl/control/daemon.py:203-585 | Every operation ends after at most six of its own steps, whatever raises and however often the VPN drops |
| Control.RunProtects | src/snarkyctl/control/daemon.py:459-585 | What each position of each operation knows about leak protection and connection, for every sequence of faults and drops, and what each outcome guarantees |
| Control.OnlyDirectExposes | src/snarkyctl/control/daemon.py:559-585 | An operation that turns protection off is a DIRECT that succeeded or whose restoring call had no effect |
| Control.FailedDirectExactly | src/snarkyctl/control/daemon.py:559-585 | A refused DIRECT leaves protection off exactly when its restoring call was made without effect and its disabling call took effect, or protection was off before |
| Control.FailedDirectExposes | src/snarkyctl/control/daemon.py:576-578 | A DIRECT from a protected start whose disabling call raises after its effect and whose restoring call raises before it: refused with the provider error, protection off |
| Control.RunPublishes | src/snarkyctl/control/daemon.py:298-370 | What each position knows about repository, catalogue view and alias map |
| Control.OperationAgrees | src/snarkyctl/control/daemon.py:325-370 | An operation that finishes leaves views and repository in agreement; a success raises the revision by one from the expected one, everything else changes nothing |
| Control.InternalErrorExactly | src/snarkyctl/control/daemon.py:335-358 | An operation ends in the error that the daemon does not catch exactly when its request passes every check of the daemon, the repository can be written, and the submitted targets have duplicate aliases or positions that do not count from zero; it then changes nothing |
| Control.MisplacedTargetUncaught | src/snarkyctl/targets/models.py:171-179 | One country target at position 1 is such a request, with and without the built-in target |
| Control.InitialAgrees | src/snarkyctl/control/daemon.py:108-125 | The service starts in agreement with the repository even when that still holds reserved targets |
| Control.Unreserved | src/snarkyctl/control/daemon.py:146-151 | Filtering leaves exactly the unreserved targets, and keeps a list that has no reserved one |
| Control.UnreservedInOrder | src/snarkyctl/control/daemon.py:111-118 | The kept targets are exactly those at the unreserved places of the list, in increasing order |
| Control.Renumbered | src/snarkyctl/control/daemon.py:111-118 | Positions count from zero and nothing else about a target changes; an ordered catalogue is left alone |
| Control.AliasMapExact | src/snarkyctl/control/daemon.py:360-364 | The alias map holds every unreserved target under its own alias and nothing else |
| Control.EditableExactly | src/snarkyctl/control/daemon.py:108-125 | The editable view of a stored catalogue is a catalogue again, holds every stored target but the built-in lookalikes, by alias or by kind, and is the stored one when there is no built-in target |
| Control.ResolvesExactly | src/snarkyctl/control/daemon.py:153-160 | An alias of the catalogue resolves to that very target, the built-in alias to the built-in target, any other to none |
| Control.NamedTargetIsDialled | src/snarkyctl/control/daemon.py:459-512 | CONNECT with the alias of a stored target goes to dialling that target and PROTECTED to enabling protection for it; the built-in alias goes to the built-in target; any other alias is refused as unknown |
| Control.SmoothRunKeepsPromise | src/snarkyctl/control/daemon.py:298-585 | Every request, run without faults and drops from a core whose views agree with its repository, ends in the promised state with the promised reply; the promise is stated by alias, settings and revision, apart from the steps |
| Control.ReplaceOpening | src/snarkyctl/control/daemon.py:298-334 | Which replacement requests reach the repository, told by what is submitted, and which refusal each other one gets |
| Control.Normalized | src/snarkyctl/control/daemon.py:325-334 | All targets come back in order with validated selectors, or none do, which happens exactly when some selector is invalid |
| Control.NormalizedKeepsUnreserved | src/snarkyctl/control/daemon.py:315-334 | Normalising selectors does not turn an accepted target into a reserved one |
| Control.NormalizedRevalidate | src/snarkyctl/control/daemon.py:325-334 | Every normalised target revalidates to itself |
| ControlService.Service.constructor | src/snarkyctl/control/daemon.py:78-125 | The constructed service is in the model's initial state |
| ControlService.Service.Mutate | src/snarkyctl/control/daemon.py:177-201 | With the lock held nothing happens; otherwise the request runs exactly the model's steps to a finished position, whose reply is returned, the alias follows the outcome, and the lock is free afterwards |
| ControlService.Service.DoModeChange | src/snarkyctl/control/daemon.py:459-558 | PROTECTED, CONNECT, DISCONNECT and LOCK run exactly the model's steps, which dial the named target (`Control.NamedTargetIsDialled`), and set the alias accordingly |
| ControlService.AliasIsNamed | src/snarkyctl/control/daemon.py:475-512 | The alias remembered after CONNECT or PROTECTED is the one that the request named |
| ControlService.Service.DisconnectSafely | src/snarkyctl/control/daemon.py:513-536 | DISCONNECT checks first and disconnects second, and forgets the alias exactly when it succeeds |
| ControlService.Service.LockGateway | src/snarkyctl/control/daemon.py:537-558 | LOCK enables protection, disconnects and checks what was reached, in the steps of the model |
| ControlService.Service.Remember | src/snarkyctl/control/daemon.py:478-479 | Assigning the remembered alias is a step of the model that changes nothing else |
| ControlService.Service.DialAndRead | src/snarkyctl/control/daemon.py:475-507 | Dialling and reading the settings are the model's two steps; on success the target's alias is remembered |
| ControlService.Service.DoDirect | src/snarkyctl/control/daemon.py:559-585 | DIRECT runs exactly the model's steps, including the restoring call after any provider error |
| ControlService.Service.TryDirect | src/snarkyctl/control/daemon.py:561-576 | The guarded part ends in success or at the restoring step with the error it raised |
| ControlService.Service.DoReplace | src/snarkyctl/control/daemon.py:298-370 | Replacement runs exactly the model's steps, checks first, storage next, views last |
| ControlService.Service.StoreTargets | src/snarkyctl/control/daemon.py:335-370 | A storage refusal leaves both views alone; a success publishes the stored catalogue |
| ControlService.Service.Publish | src/snarkyctl/control/daemon.py:359-364 | First the catalogue view, then the alias map, become the stored catalogue's |
| ControlService.Adapter.Perform | src/snarkyctl/control/daemon.py:612-617 | A provider call may raise before or after its effect, and the VPN may drop before or within it |
| Catalogue.NoLostUpdate | src/snarkyctl/targets/repository.py:51-65 | Of two replacements against one revision at most one succeeds; a success adds one to that provider's revision only; a failure changes nothing |
| Catalogue.ReplaceExactly | src/snarkyctl/targets/repository.py:51-65 | A replacement succeeds exactly when the targets are a catalogue and the expected revision is the stored one, zero for a provider without catalogue; it then stores and answers the submitted targets under the next revision; an ordered request against another revision is a conflict, a disordered one is invalid, and neither changes anything |
| Catalogue.MemoryRepository.GetCatalogue | src/snarkyctl/targets/repository.py:45-49 | The stored catalogue, or the empty one of revision zero |
| Catalogue.MemoryRepository.ReplaceCatalogue | src/snarkyctl/targets/repository.py:51-65 | Validation, conflict check and replacement as specified |
| Catalogue.SqliteRepository.Initialize | src/snarkyctl/targets/sqlite.py:17-36 | An empty database represents the empty store |
| Catalogue.SqliteRepository.SelectTargets | src/snarkyctl/targets/sqlite.py:106-112 | Exactly the provider's rows, by strictly increasing position |
| Catalogue.OrderedRowsAre | src/snarkyctl/targets/sqlite.py:106-128 | Rows of a valid catalogue, ordered by position, are its targets in order |
| Catalogue.SqliteRepository.GetCatalogue | src/snarkyctl/targets/sqlite.py:98-130 | The same catalogue as the specification, or a storage error |
| Catalogue.SqliteRepository.InsertTargets | src/snarkyctl/targets/sqlite.py:165-175 | Without a storage failure all rows are inserted; no constraint refuses a validated target |
| Catalogue.AdmitsNext | src/snarkyctl/targets/sqlite.py:17-36 | Primary key, unique position, foreign key and length check admit the next row of a valid catalogue after the old rows are gone |
| Catalogue.CommitRepresents | src/snarkyctl/targets/sqlite.py:154-176 | The committed tables represent the store with exactly one catalogue replaced, on the update branch with its DELETE and on the insert branch without |
| Catalogue.SqliteRepository.ReplaceCatalogue | src/snarkyctl/targets/sqlite.py:129-182 | The same new contents and answer as the specification, except for oversized selectors and storage failures; after a failure at any statement, tables and contents are unchanged |
| Catalogue.RunStored | src/snarkyctl/targets/sqlite.py:98-182 | One operation on SQLite gives the answer and store of the specification, or is declined without effect; with reliable storage and selectors within the bound it is never declined |
| Catalogue.Lockstep | src/snarkyctl/targets/sqlite.py:98-182 | For every sequence of reads and replacements over any providers: both repositories end with the contents of the specification after the operations that SQLite did not decline, and each of those is answered by both with the answer of the specification at that point; with reliable storage and selectors within the bound none is declined |
| Firewall.ForwardMeaning | scripts/snarkypuss-activate.py:171-199 | After activation a FORWARD packet is accepted if it is reply traffic or tunnel traffic of the client network; every other packet gets the verdict of the old chain without owned jumps |
| Firewall.NatMeaning | scripts/snarkypuss-activate.py:201-216 | After activation POSTROUTING masquerades packets of the client network; every other packet is treated as before |
| Firewall.InstalledForwards | scripts/snarkypuss-activate.py:171-199 | The verdict of every packet at FORWARD after a successful activation, under every policy |
| Firewall.InstalledMasquerades | scripts/snarkypuss-activate.py:201-216 | The verdict of every packet at POSTROUTING after a successful activation, under every policy |
| Firewall.UnreachedChain | scripts/snarkypuss-activate.py:166-216 | Traversal of any rule list does not depend on a chain to which no rule leads |
| Firewall.LastActivationWins | scripts/snarkypuss-activate.py:149-216 | Activating with one configuration and then another gives the ruleset of the other alone |
| Firewall.ActivationRepeatable | scripts/snarkypuss-activate.py:149-216 | An activated table meets the conditions of another activation |
| Firewall.RemoveJumps | scripts/snarkypuss-activate.py:149-163 | The probe-and-delete loop ends from any number of stale jumps, keeps every other rule in order, and with a reliable iptables leaves none |
| Firewall.RemoveOwned | scripts/snarkypuss-activate.py:149-163 | Other chains are untouched and other rules keep their order, whatever fails; when the owned chain is gone, so are all plain jumps, and no foreign rule led to it; with a reliable iptables it survives exactly by a foreign rule |
| Firewall.ReferencesAfterStrip | scripts/snarkypuss-activate.py:149-163 | After the plain jumps are gone, what still refers to the owned chain is exactly the foreign rules |
| Firewall.NothingLeads | scripts/snarkypuss-activate.py:149-163 | When the owned chain could be deleted after some jumps were removed, no plain jump is left and no foreign rule led to it |
| Firewall.SurvivesByReference | scripts/snarkypuss-activate.py:149-163 | With a reliable iptables the owned chain survives exactly by a foreign reference |
| Firewall.Install | scripts/snarkypuss-activate.py:166-216 | On success the owned chain holds its rules and one jump is on top of the hook |
| Firewall.ApplyFirewall | scripts/snarkypuss-activate.py:166-216 | A reported success means both tables are fully installed and every packet is treated as promised; with a reliable iptables it succeeds exactly when no foreign rule holds an existing owned chain |
| Activation.RestorationExact | scripts/snarkypuss-rollback.py:108-113 | From any running state the restoring loop reaches the captured states of the three units exactly when those were coherent, and touches no other unit |
| Activation.RunRestores | scripts/snarkypuss-rollback.py:86-137 | After any run of confirmations, failed or retried rollbacks and outside changes, begun wherever `apply` was cut, the rollback that completes returns the whole captured host, exactly when its services were coherent, every edited table was listed at the capture, and the persistent rules return |
| Activation.RollbackRestores | scripts/snarkypuss-rollback.py:105-128 | One completed rollback of a covered host returns firewall, forwarding, services and persistent rules, exactly when the captured services were coherent and every edited table was listed |
| Activation.UnlistedTableStays | scripts/snarkypuss-rollback.py:105-107 | A run in which the NAT table was not listed at the capture: after the timer has rolled back, its activated rules are still there |
| Activation.StatusMonotone | scripts/snarkypuss-rollback.py:95-103 | Over every run, with unchecked commands that may do nothing, the status moves only pending to confirmed or rolled_back and confirmed to rolled_back; only a forced manual rollback leaves confirmed or changes its persistent rules, so the timer never does |
| Activation.RolledBackAbsorbs | scripts/snarkypuss-rollback.py:95-98 | After a rollback no confirm, timer or manual rollback changes anything, also with unchecked commands that may do nothing |
| Activation.PersistentFollowsStatus | scripts/snarkypuss-activate.py:243-249 | The persistent rules at every moment of every run: before any confirmation what the last confirm that failed after saving left, else the captured ones; after a confirmation and its rollback the captured ones |
| Activation.RolledBackPersistent | scripts/snarkypuss-activate.py:243-249 | A rolled-back activation has the captured persistent rules exactly when it was confirmed before, or no confirm failed after saving, or the last such saved rules equal to the captured ones |
| Activation.InterruptedConfirmPersists | scripts/snarkypuss-activate.py:245-248 | A run in which a confirm fails after saving and the timer then rolls back: the status is rolled_back, the persistent rules are not the captured ones |
| Activation.StepKeepsWellformed | scripts/snarkypuss-rollback.py:86-140 | No event changes the captured state or any uncaptured unit |
| Activation.Gateway.Confirm | scripts/snarkypuss-activate.py:233-250 | Confirms only a pending activation, saving the live rules; without a failing command it does confirm a pending one; a failure keeps the status and is told apart by whether the rules were already saved |
| Activation.Gateway.Rollback | scripts/snarkypuss-rollback.py:86-140 | Refuses, does nothing, restores, or fails part-way (also between the two tables of iptables-restore) with the status unchanged, as the protocol relation says; without a failing command it never fails, so that what may be rolled back is |
| Activation.Gateway.RestoreOne | scripts/snarkypuss-rollback.py:47-49 | Restores one unit when systemctl works, and never touches another unit than the captured three |
| Activation.Gateway.Mutate | scripts/snarkypuss-activate.py:333-340 | The mutating commands in order: success reaches the activated rules, forwarding and services; any cut leaves everything that rollback does not restore as it was and never a DNS service without its tunnel; where only iptables can refuse, it succeeds exactly when no foreign rule holds an existing owned chain |
| Activation.Gateway.Apply | scripts/snarkypuss-activate.py:277-352 | A refusal mutates nothing; state and timer are in place before any mutation; after a failed mutation the forced rollback runs at once, so unless the process died or a restoring command failed the status is rolled_back, with the captured host exactly when its services were coherent and its rules came back, as every listed table does; otherwise it is pending with its timer, in a state where every run of the protocol may begin; where only iptables can refuse, the outcome is determined |
| Schema.DependencyWalk.Visit | src/snarkyctl/targets/models.py:88-98 | The recursive visit terminates, `visiting` is always the current path, and it either finishes the field and all it depends on or has found a cycle |
| Schema.VisitAll | src/snarkyctl/targets/models.py:85-100 | Accepts exactly the graphs without a dependency cycle of any length, with a topological order |
| Schema.ValidateDependencies | src/snarkyctl/targets/models.py:71-101 | Accepts exactly the kinds with unique names, unique known dependencies and no cycle; reports a cycle exactly when the earlier checks pass and there is one |
| Schema.CheckNames | src/snarkyctl/targets/models.py:73-83 | The checks before the walk: repeated names first, then the first field whose dependencies are repeated or unknown, the former reported before the latter; succeeds exactly when there are none |
| Schema.SortedIsAcyclic | src/snarkyctl/targets/models.py:85-100 | A graph with a topological order has no cycle |
| Schema.WalkDescends | src/snarkyctl/targets/models.py:85-100 | Every walk along dependencies goes strictly down a topological order |
| OptionCache.AlwaysCoherent | src/snarkyctl/static/dashboard.js:553-630 | In every interleaving of edits, kind changes, renderings, late responses and targets coming and going, each stored discovery state was requested with the target's present kind and dependency values |
| OptionCache.SupersededIgnored | src/snarkyctl/static/dashboard.js:569-572 | A response for a kind or dependency values that are no longer the target's changes no target and no option list |
| OptionCache.AnswerInstalled | src/snarkyctl/static/dashboard.js:569-600 | In every reachable state, a matching answer to the awaited request installs its options, and the state is then removing exactly when the field has a value that this answer for the present kind and dependency values does not list, else ready; a mismatch or a problem leaves it broken; no selector changes |
| OptionCache.AnswerDecides | src/snarkyctl/static/dashboard.js:569-600 | After a matching answer an optional field passes validation exactly when its value is empty or listed; after any other answer it does not |
| OptionCache.RenderAsks | src/snarkyctl/static/dashboard.js:610-630 | Rendering asks the provider exactly for a provider-backed field whose dependencies have values and whose state was asked with other ones, and installs a loading state for the present ones |
| OptionCache.PassedValuesWereOffered | src/snarkyctl/static/dashboard.js:925-982 | When validation finds nothing to complain about after any run, every non-empty provider-backed value was offered for the current kind and dependency values |
| OptionCache.ContextKept | src/snarkyctl/static/dashboard.js:541-551 | A change keeps the dependency values of every field that does not depend on the changed one |
| OptionCache.ChangeStores | src/snarkyctl/static/dashboard.js:700-708 | A change event stores the value, gives exactly the transitive dependents their defaults and forgets their states, and touches no other field, state or target |
| OptionCache.PassedFieldsAreFilled | src/snarkyctl/static/dashboard.js:925-982 | When validation finds nothing, every required field has a value and every local choice is one of the choices |
| OptionCache.EditorTarget.ClearDependentFields | src/snarkyctl/static/dashboard.js:541-551 | On every accepted schema the recursion terminates and resets value and discovery state of exactly the transitive dependents |
| OptionCache.EditorTarget.ChangeField | src/snarkyctl/static/dashboard.js:700-708 | A change handler sets its field and resets exactly the transitive dependents |
| OptionCache.DependentsShrink | src/snarkyctl/static/dashboard.js:541-551 | The termination measure: below a dependent field there are strictly fewer dependents |
| OptionCache.ClearedAll | src/snarkyctl/static/dashboard.js:541-551 | What the recursion clears is all that transitively depends on the changed field, and nothing else |
| WireGuard.ParseInvertsRender | scripts/snarkypuss-migrate.py:119-217 | Parsing a rendered configuration recovers address, port, key, mark, peer and keepalive, for every accepted configuration, with or without the managed key file |
| WireGuard.MigrationKeepsGateway | scripts/snarkypuss-migrate.py:351-366 | From any parsed gateway through the setup document and the generated configuration back through the parser: accepted exactly when client and server addresses differ, and then the gateway found, without its hooks |
| WireGuard.ParseExactly | scripts/snarkypuss-migrate.py:119-217 | For every text, read line by line as remarks, headers and options: the parser returns a gateway, key and hooks exactly when the file says them — one peer, each option given once, the first listed address, the key inline or in the managed file or the same in both, a missing or empty keepalive as 25, all numbers in range, the hooks in order |
| WireGuard.HandWritten | scripts/snarkypuss-migrate.py:179-195 | Where an address option lists several, the one before the first comma becomes the server or client address; a missing keepalive gives 25; every hook line is listed |
| WireGuard.FileScans | scripts/snarkypuss-migrate.py:125-143 | The scanning loop notes exactly the options under the two sections, counts the peer headers and lists the hooks, on any file |
| WireGuard.EveryLineReads | scripts/snarkypuss-migrate.py:129-140 | No line is outside that reading |
| WireGuard.StripExactly | scripts/snarkypuss-migrate.py:130 | Stripping leaves the one text without outer blanks that stands between blanks |
| WireGuard.OneExactly | scripts/snarkypuss-migrate.py:150-162 | An option is absent, given once with its value, or refused exactly when given twice |
| WireGuard.KeyExactly | scripts/snarkypuss-migrate.py:164-177 | The chosen key is the inline one, the managed one, or both when they agree, an empty one counting as none; every other combination is refused |
| WireGuard.ReadExactly | scripts/snarkypuss-configure.py:96-189 | The reader returns a configuration exactly when the document says it, the gateway is one that the generator accepts, and the client is not the server; a missing keepalive is 25 |
| WireGuard.RenderedIsInert | scripts/snarkypuss-configure.py:219-233 | A generated file turns saving off and holds no hook |
| WireGuard.DecimalRead | scripts/snarkypuss-migrate.py:193 | A mark in decimal reads as that number |
| WireGuard.ReadInvertsDocument | scripts/snarkypuss-configure.py:96-189 | Reading a generated setup document gives the gateway and egress back, or the same-address refusal exactly when it applies |
| WireGuard.ParsedIsAccepted | scripts/snarkypuss-migrate.py:164-217 | Whatever the parser returns satisfies every condition of the reader except that addresses differ |
| WireGuard.RenderedScans | scripts/snarkypuss-configure.py:219-233 | Scanning a rendered file collects exactly the rendered settings under their sections and counts one peer |
| WireGuard.SettingScans | scripts/snarkypuss-migrate.py:138-143 | A line splits at its first equals sign, so values that contain or end in one are kept |
| WireGuard.ScanFile | scripts/snarkypuss-migrate.py:129-143 | The scanning loop folds the line step over the file |
| WireGuard.ReadNumbers | scripts/snarkypuss-migrate.py:191-203 | Accepted numbers are within their ranges |
| WireGuard.HexRoundTrip | scripts/snarkypuss-configure.py:226 | Prefixed hexadecimal printing is inverted by base-detecting parsing |
| WireGuard.SplitJoin | scripts/snarkypuss-migrate.py:121 | Splitting joined lines gives the lines back |
| Numerals.PrintParse | scripts/snarkypuss-configure.py:224-232 | Printing a number in base 10 or 16 and parsing it gives the number |
| Numerals.NoLeadingZero | scripts/snarkypuss-configure.py:224-232 | A printed number begins with a zero exactly when it is zero |
| Backup.FileSystem.BackupFiles | scripts/snarkypuss-migrate.py:275-319 | The backup records every managed path and touches nothing outside its directory; it succeeds exactly when the directory is new and no managed path is a folder |
| Backup.FileSystem.RestoreFiles | scripts/snarkypuss-migrate.py:322-348 | From a backup of an earlier state every managed path returns to its content and mode or its absence, and no other path changes |
| Backup.FileSystem.RestoreEntry | scripts/snarkypuss-migrate.py:329-348 | One manifest entry is applied, and then its path, copy and checksum were good, or nothing happens |
| Backup.HoldsElsewhere | scripts/snarkypuss-migrate.py:275-319 | A backup stays good under any change outside its directory |
| Backup.BakKeeps | scripts/snarkypuss-configure.py:272-292 | A fresh `.bak` copy of a managed file is never inside the backup directory |
| Backup.RestoreStep | scripts/snarkypuss-migrate.py:329-348 | Restoring one more entry extends the restored part by exactly its path |
| Backup.FileSystem.Prepare | scripts/snarkypuss-migrate.py:432-474 | Whatever happens, unmanaged files are kept and new files are managed, `.bak` copies of managed ones, or in the backup directory; after a restoration every earlier file is back and the only new files outside that directory are `.bak` copies; with working operations and generator it succeeds exactly when the backup directory is new and no managed path is a folder |
| Backup.FileSystem.WriteAll | scripts/snarkypuss-migrate.py:442-470 | However far the writes get, earlier files change only at managed paths, and new files are managed or `.bak` copies of managed ones |
| Backup.FileSystem.ReplaceKeeping | scripts/snarkypuss-configure.py:281-305 | Replacing a file changes it alone and, exactly when it had other content, first copies it to one fresh `.bak` name |
| Backup.FileSystem.BackupPath | scripts/snarkypuss-configure.py:272-278 | The search for a `.bak` name ends on the first unused one: the plain name, or else the smallest free number |
| Backup.TakenBaks | scripts/snarkypuss-configure.py:272-278 | As many numbered names can be taken as there are files, by counting |
| Backup.ManagedPathsDistinct | scripts/snarkypuss-migrate.py:26-39 | The managed paths are absolute and pairwise different for every interface name |
| Backup.PreparedFilesAreManaged | scripts/snarkypuss-configure.py:322-400 | All files that both scripts write are managed and pairwise different |
| Backup.RealPathsSeparate | scripts/snarkypuss-migrate.py:24-39 | Below the default backup root every new directory is apart from all managed paths, for every root and interface |
| Backup.RealWritesPlanned | scripts/snarkypuss-migrate.py:442-453 | The writes of both scripts go to different managed paths |
| NordVpn.ValidationIdempotent | src/snarkyctl/providers/nordvpn.py:476-493 | A validated selector validates to itself and differs from the submitted one at most in its country |
| NordVpn.ValidatesExactly | src/snarkyctl/providers/nordvpn.py:476-493 | Exactly six forms of selector are accepted, each with exactly its own fields and safe texts; a country code of 2 to 32 characters is stored in small letters and everything else as it came |
| NordVpn.CommittedSelectorConnects | src/snarkyctl/providers/nordvpn.py:498-516 | A committed selector connects with the text of every field but its kind, one argument a field, the country before the city, each starting with a letter or digit |
| NordVpn.NormalizeDiscovery | src/snarkyctl/providers/nordvpn.py:271-284 | Normalisation succeeds exactly when something is left that fits, and yields a discovered value |
| NordVpn.DiscoveryFixpoints | src/snarkyctl/providers/nordvpn.py:271-284 | It leaves a text alone exactly when that is a discovered value with single underscores, and only yields such values |
| NordVpn.ParseLine | src/snarkyctl/providers/nordvpn.py:307-324 | One line is accepted exactly when it is printable, fits and normalises to an allowed value |
| NordVpn.ParseOptions | src/snarkyctl/providers/nordvpn.py:287-332 | The list is accepted exactly when it has 1 to 256 acceptable lines that stand for pairwise distinct values, and is then returned in order with its captions; more lines are reported as too large |
| NordVpn.AcceptedValuesDiscovered | src/snarkyctl/providers/nordvpn.py:287-332 | Every listed value has the discovered form, fits, and differs from all others |
| NordVpn.DiscoveredCountryAccepted | src/snarkyctl/providers/nordvpn.py:476-493 | A discovered country is accepted unchanged exactly when it has at least two characters |
| NordVpn.DiscoveredCityAccepted | src/snarkyctl/providers/nordvpn.py:476-493 | A discovered city in such a country is accepted unchanged |
| NordVpn.DiscoveredGroupAccepted | src/snarkyctl/providers/nordvpn.py:476-493 | A discovered group is accepted unchanged |
| Slug.SlugFixpoints | src/snarkyctl/static/dashboard.js:327-330 | Substituting and stripping leaves a text alone exactly when it consists of kept characters and single inner underscores |
| Slug.SluggedKeepsKept | src/snarkyctl/static/dashboard.js:327-330 | Every text keeps its kept characters, in order |
| Slug.CollapseSplits | src/snarkyctl/static/dashboard.js:327-330 | After a kept character the rest of a text is substituted on its own |
| Slug.RunCollapses | src/snarkyctl/static/dashboard.js:327-330 | A run of other characters becomes one underscore |
| Slug.Slugged | src/snarkyctl/providers/nordvpn.py:271-284 | Only kept characters and underscores remain, with no underscore at either end |
| Alias.UniqueAlias | src/snarkyctl/static/dashboard.js:341-366 | For every label and up to 100 other targets the result is a valid stored alias, unused and not the built-in one; it is the normalised label if free, else the first free alternative |
| Alias.FirstFreeCandidate | src/snarkyctl/static/dashboard.js:354-365 | The loop looks at no more alternatives than there are used names plus one |
| Alias.CandidateInjective | src/snarkyctl/static/dashboard.js:356-360 | Different numbers give different alternatives although stems are cut and stripped |
| Alias.TakenCandidates | src/snarkyctl/static/dashboard.js:354-365 | As many alternatives can be taken as there are used names, by counting |
| Alias.CandidateIsAlias | src/snarkyctl/targets/models.py:146 | Every alternative is a valid stored alias |
| Alias.NormalizedAlias | src/snarkyctl/static/dashboard.js:323-339 | Every text normalises to a valid stored alias without a final underscore |
| Alias.NormalizedFixpoints | src/snarkyctl/static/dashboard.js:323-339 | Normalisation leaves a text alone exactly when it is a valid alias with single inner underscores, and is idempotent |
| Alias.NormalizedExactly | src/snarkyctl/static/dashboard.js:323-339 | The alias is the first 32 characters of the substituted label, with a word in front unless it starts with a letter, less only underscores at the end, and the fallback word when nothing is left |
| Alias.CandidateExactly | src/snarkyctl/static/dashboard.js:356-360 | An alternative is as much of the base as leaves room, less only underscores at the end, then an underscore and the number |
| Framing.Connection.ReceiveFrame | src/snarkyctl/control/protocol.py:200-208 | However the stream is chunked, the outcome is that of the independent decoder and the stream is left at the next byte; only a timeout can intervene |
| Framing.Connection.ReceiveExact | src/snarkyctl/control/protocol.py:211-220 | Exactly the wanted bytes, or an error; the loop ends on every stream |
| Framing.DecodeInvertsEncode | src/snarkyctl/control/protocol.py:192-208 | A stream decodes to a payload exactly when it starts with that payload's frame and the payload has 1 to 524288 bytes |
| Framing.UnpackPack | src/snarkyctl/control/protocol.py:192-197 | Length headers are read as they were written |

## Left out

- ControlSystem.AliasIsLastDialled: does not say that STATUS labels the observed connection with its own alias, or that the alias is still in the catalogue; STATUS runs without the lock and a replacement does not clear the alias, so neither holds.
- ControlSystem.FailClosed: the daemon alone changes protection; someone changing the VPN client's settings outside the daemon is not modelled, and provider calls fail only with provider errors, since DIRECT restores protection for no other exception.
- Control.Unreserved: whether the provider has a built-in target is a parameter; building that target from the schema is not modelled.
- Catalogue.SqliteRepository.GetCatalogue: its two SELECT statements are one step; the code does not read atomically against another process writing between them.
- Catalogue.SqliteRepository.ReplaceCatalogue: revisions are unbounded, SQLite's are 64-bit; locking between processes is not modelled.
- Catalogue.MemoryRepository.ReplaceCatalogue: its lock is not modelled; only the holder of the operation lock replaces.
- Firewall.ForwardMeaning: requires that only plain jumps lead to the owned chain, as the scripts write them; `goto` targets are not modelled.
- Activation.Gateway.Apply: the read-only checks before the capture (options, files, interface, dry runs) are left out except the one about the legacy resolver; the timer is taken not to fire while the commands still run, since nothing prevents that but its delay of at least 30 seconds.
- OptionCache.AlwaysCoherent: `ensureProviderOptions` and `loadProviderOptions` are transitions on values, which keeps the identity of state objects as request numbers; rendering order, the removal queue and DOM events are left out, as are numeric NaN values and a field called `kind`.
- WireGuard.ParseInvertsRender: ConfigParser, base64, `ipaddress` and line boundaries other than line feeds are abstract; `int` is modelled for plain digits and `0x`, without signs, separators, surrounding blanks, `0o` or `0b`.
- WireGuard.ReadInvertsDocument: the list of DNS upstreams is only accepted or refused, not carried.
- Backup.FileSystem.Prepare: directories appear as needed, temporary files and their clean-up are one step with the replacement, a manifest of another format does not occur, symbolic links do not occur, and the backup directory lies apart from all managed paths.
- Backup.FileSystem.BackupFiles: the copy of `iptables-save` output that the script puts in the backup directory is not part of the model, and the loop that picks a new directory name is replaced by refusing an existing one.
- NordVpn.NormalizeDiscovery: Unicode decomposition to ASCII, casefolding outside ASCII and printability are inputs.
- Alias.NormalizedAlias: Unicode decomposition and lower-casing are inputs.
- Framing.Connection.ReceiveFrame: a timeout loses the bytes already received, as in the code; what the peer does next is not modelled.
- JSON, Pydantic field bounds other than those named, SHA-256 collisions, sockets, `flock`, systemd and the NordVPN command line are abstract.
- The YAML target bridge appears only as a read-only repository.
- Target labels suggested by the dashboard, and the depth of fields used to order them, would only add easy members.
- Authentication, HTTP routes, status collectors, preflight, packaging and command-line output are not part of this model.
