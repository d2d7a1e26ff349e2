# DayShield Core: protocols and codecs, modelled and proved in Dafny

DayShield Core is the daemon of a firewall appliance. This project models the parts of it that
keep promises over whole runs, and proves those promises for all inputs and all runs:

- the A/B root slots: applying an image, rolling back, confirming a boot, with failed boots and
  power loss in between (`RootfsUpdate`);
- the AI policy engine: suggestions that edit the rule list, the log they can be undone from, the
  hourly limit on automatic edits (`PolicyEngine`, on top of `AutoEnforcer`), and the zero-trust
  baseline merge (`ZeroTrust`);
- the time-ordered event stores and their index (`EventKeys`, `EventStore`);
- component updates: version order, artifact names, the install with a backup, what the state
  file records against what is deployed, the scheduled check (`Versions`, `AtomicInstall`,
  `ComponentUpdates`, `UpdateSchedule`);
- captive-portal sessions and vouchers, DHCPv6 reservations, the login lock, the Kea CSV scanner
  and shell quoting (`CaptivePortal`, `Ipv6Text` and `Dhcp6`, `LoginLockout`, `KeaCsv`,
  `ShellQuote`).

Code that changes state step by step is a class (`Appliance`, `RuleList`, `Engine`, `Bootstrap`,
`Store`, `Installer`, `UpdateManager`, `UpdateChecker`, `Portal`, `Dhcp6Service`, `LoginGate`) or a
method with a loop. Each method is proved equal to a function of the old state; runs of these
functions, with every failure a parameter of the step, are what the lemmas are about. Files,
clocks, random ids, hashes and the outcome of commands are parameters.

`dafny verify dfyconfig.toml` checks everything.

## What turned out not to hold

Each of these is a lemma below, next to the exact condition under which the code does what it
promises.

- Two suggestions can share an id although they belong to different interfaces, because the id
  leaves the interface out (`ai_firewall/rule_suggester.rs`). The hourly gate then looks at one
  interface and the action is logged under the other (`SharedIdsBreakTheLimit`). The limit holds
  through a run exactly if every event that logs an action finds room under the interface it is
  logged for (`EventKeepsBoundIff`, `LimitHoldsThroughoutIff`).
- A stored suggestion can be applied twice by hand. Its rule is then in the list twice, and one
  undo takes out both while the log still has an entry for it (`AppliedTwiceUndoneOnce`). One undo
  restores the list exactly when the added id was new (`UndoAddRestoresIff`).
- The first check after a core update records the new core version as the UI's version, if the
  UI was never recorded before (`FirstCheckAfterACoreUpdateMisrecordsTheUi`). A second
  rollback without an apply in between swaps versions but not files (`SecondRollbackMisrecordsIff`).
- Arming a probation is four separate writes. On a confirmed boot, cut after the first or second,
  they select the new slot with no way back (`SplitArmingOnAConfirmedBoot`); on a trial boot it
  depends on the fallback entry already there (`SplitArmingFallsBackIff`).
- The recovery marker names the wrong release if a rollback was armed on a trial boot and then
  failed (`MarkerOfAFailedRollbackIsWrong`); with rollbacks held back until a boot is confirmed it
  is always right (`MarkersAreRightIfHeldBack`). A confirmation before the reboot reports a
  recovery from nothing (`ConfirmingBeforeTheRebootReportsARevert`).
- An apply during a trial boot formats the confirmed slot; only the scheduled path checks for it
  (`UnguardedApplySpoilsIff`).
- An install that moves the old version aside and then fails to move either in leaves none, and
  the state file goes on naming it (`ApplyKeepsConsistentIff`, `RollbackKeepsConsistentIff`).
- Storing an event under an id already used for another key leaves the older event out of the
  index (`InsertKeepsIndexIff`, for whole runs `InsertsKeepIndexIff`); the index leads to the one
  stored last (`IndexLeadsToTheLatest`).
- One IPv6 address written in two ways is reserved twice (`TwoSpellingsAreBothReserved`, with an
  input in `OneAddressReservedTwice`); the exact condition for runs is `AddressesStayDistinctIff`.
- A saturated unlimited voucher goes on issuing sessions it no longer counts
  (`AuthorizeCountsIff`). A wrapped failure counter lets one extra failure through
  (`TheBoundEndsWhereTheCounterWraps`).
- The CSV scanner trims white space inside quotes, which section 2.4 of RFC 4180 keeps
  (`RoundTripIff`).
- Versions that do not parse are newer than each other both ways (`NewerBothWaysIff`).

Two more of this kind need a suggestion with a target rule, which the engine's operations allow
but which it never stores itself: an undone removal comes back at the end of the list
(`UndoRemoveRestoresOrderIff`), and an undo by interface can take an entry out of turn, after
which what is left of the log leads back to the original rules exactly under
`UndoByInterfaceIff`. On the suggestions the engine does store, every run of applies and of undos
in any order can be undone to the very list it started from (`OwnRunsRestoreTheRules`).

## Model

| member | source | states |
|---|---|---|
| RootfsUpdate.ConfirmedSlotIsNeverTouched | dayshield-core/src/rootfs_update.rs:496-663 | Over every run of apply (cut anywhere), rollback, confirm, power loss and boots, with apply entered only outside a probation, the image of the slot last confirmed stays as it is, and complete, until another slot is confirmed |
| RootfsUpdate.InstalledSystemsStayBootable | dayshield-core/src/rootfs_update.rs:486-867 | Every state reachable from an installed system has a complete image in the slot last confirmed |
| RootfsUpdate.StepKeepsInv | dayshield-core/src/rootfs_update.rs:486-867 | The protocol invariant: outside a probation GRUB's saved entry is the confirmed slot; in one, saved and fallback entry are the two slots, the fallback is complete and at most three attempts are left; only a confirmation changes which slot is confirmed |
| RootfsUpdate.RunKeepsInv | dayshield-core/src/rootfs_update.rs:486-867 | The invariant holds along every run |
| RootfsUpdate.AtMostThreeFailedBoots | dayshield-core/src/rootfs_update.rs:38-44 | From every reachable state there is a number of boots of incomplete slots, at most three and at most the attempts left, after which GRUB selects a complete slot, and it selects none before |
| RootfsUpdate.ProbationFallsBackAfterItsAttempts | dayshield-core/src/rootfs_update.rs:42-44 | From every reachable state on probation, boots that are not confirmed, for whatever reason, try the new slot while attempts are left, at most three times, and from then on the slot that armed the probation, which is complete |
| RootfsUpdate.FailedBoots | dayshield-core/src/rootfs_update.rs:38-44 | The exact number of boots that fail before a complete slot is selected, with the attempt counter as measure |
| RootfsUpdate.BootsOnlyCountDown | dayshield-core/src/rootfs_update.rs:38-44 | Any number of failed boots is a legal run and changes nothing on disk but GRUB's counter |
| RootfsUpdate.SplitArmingFallsBackIff | dayshield-core/src/rootfs_update.rs:660-663 | From any environment: after only the first k of the four writes that arm a probation (apply or rollback), some later boot can select the running slot exactly when k is 3 or 4, or a probation was on and the fallback entry is (k = 2) or was (k = 1) the running slot |
| RootfsUpdate.SplitArmingOnAConfirmedBoot | dayshield-core/src/rootfs_update.rs:711-714 | On a confirmed boot the running slot can be selected again exactly when k is neither 1 nor 2 |
| RootfsUpdate.SelectableIff | dayshield-core/src/rootfs_update.rs:38-44 | Which slots unconfirmed boots can come to under GRUB's rule, from any environment |
| RootfsUpdate.UnguardedApplySpoilsIff | dayshield-core/src/update.rs:3783-3801 | An apply not held back by the reboot-required check makes the confirmed slot incomplete exactly when the machine runs from the other slot, which happens only while a reboot is required |
| RootfsUpdate.WholeApply | dayshield-core/src/rootfs_update.rs:496-673 | A finished apply leaves one complete new image in the slot not running, the other untouched, the record naming both, one armed probation and no recovery marker |
| RootfsUpdate.ApplyOrder | dayshield-core/src/rootfs_update.rs:496-669 | The order of an apply: from its first step the old image is gone, the record changes only once the new image is complete, and GRUB and the recovery marker only after that |
| RootfsUpdate.ArmedForThreeBoots | dayshield-core/src/rootfs_update.rs:660-663 | A probation just armed, by an apply or a rollback, is for three boots of the other slot and from then on for the running one |
| RootfsUpdate.ApplyWritesOnlyTheTarget | dayshield-core/src/rootfs_update.rs:496-663 | However far an apply gets, the running slot keeps its image, and GRUB's environment changes only with the last step |
| RootfsUpdate.CleanRunsKeepTheRecordRight | dayshield-core/src/rootfs_update.rs:652-657 | Over runs with nothing cut short, slots.json names two different slots and the right release for both, through apply, rollback, success and auto-revert |
| RootfsUpdate.ApplyKeepsRecordIff | dayshield-core/src/rootfs_update.rs:652-657 | One apply keeps a right record right exactly when it had the running slot as current, or both slots hold the same release |
| RootfsUpdate.RightRecordAnswersForBothSlots | dayshield-core/src/rootfs_update.rs:330-344 | With a right record the version reported for either slot is the release really on it, and none if that is empty or unknown |
| RootfsUpdate.AutoRevertIffArmedByRunning | dayshield-core/src/rootfs_update.rs:775-779 | On probation the auto-revert branch is taken exactly when the running slot armed it, which after a boot means that GRUB used the fallback entry with no attempts left |
| RootfsUpdate.ConfirmationReportsRevertsOnly | dayshield-core/src/rootfs_update.rs:757-831 | In any run a confirmation writes a recovery marker exactly when the machine is up, on probation, on the slot that armed it, and removes it otherwise; with GRUB's environment written the probation is over and every boot to come is of the running slot; with the record written that slot is current, under its own stamp |
| RootfsUpdate.ConfirmingBeforeTheRebootReportsARevert | dayshield-core/src/rootfs_update.rs:775-799 | A confirmation after a rollback and before the reboot always writes a recovery marker |
| RootfsUpdate.MarkerNamesTheFailedReleaseIff | dayshield-core/src/rootfs_update.rs:781-799 | The marker names the release on the slot that failed exactly when the record has the surviving slot as current, or both hold the same release |
| RootfsUpdate.MarkerOfAFailedRollbackIsWrong | dayshield-core/src/rootfs_update.rs:781-799 | From any installed system with a right record, a run of apply, boot, rollback before confirmation, three failed boots, boot and confirm ends with a marker that gives the old slot the new release |
| RootfsUpdate.MarkersAreRightIfHeldBack | dayshield-core/src/rootfs_update.rs:775-799 | Over clean runs in which rollbacks start on confirmed boots and confirmations reach GRUB, every marker names the release on the slot that failed |
| RootfsUpdate.Appliance.ApplyStagedImage | dayshield-core/src/rootfs_update.rs:496-673 | The field-by-field apply leaves exactly the disk of its first `cut` steps, and reports the step it failed at or the target slot |
| RootfsUpdate.Appliance.ArmRollback | dayshield-core/src/rootfs_update.rs:701-714 | A rollback arms a probation of the other slot and touches nothing else |
| RootfsUpdate.Appliance.SignalBootSuccess | dayshield-core/src/rootfs_update.rs:757-831 | Confirming clears the probation, makes the running slot current with its own stamped version, and marks a recovery if there was one |
| AutoEnforcer.ApplyIsUndoable | dayshield-core/src/ai_firewall/auto_enforcer.rs:26-57 | The change logged for a suggestion leads from the new list back to the old map from id to rule, and ids stay distinct |
| AutoEnforcer.UndoIsChangeUndone | dayshield-core/src/ai_firewall/auto_enforcer.rs:59-75 | Undoing on the list removes, adds or resets exactly one entry of the map from id to rule |
| AutoEnforcer.UndoAllRestores | dayshield-core/src/ai_firewall/auto_enforcer.rs:59-75 | Undoing a whole log last-first brings back the original map from id to rule |
| AutoEnforcer.OutOfTurnUndoRestoresIff | dayshield-core/src/ai_firewall/auto_enforcer.rs:59-75 | Undoing entry p of a log while entry q, the same one or a later one like it, leaves the log still restores the map exactly when no entry behind q is about the same rule, or p is an edit of a rule now present and either another entry about it stays before q or the next one leads back to what the edit started from |
| AutoEnforcer.LogRestoresPerId | dayshield-core/src/ai_firewall/auto_enforcer.rs:59-75 | A log restores a map exactly when it restores every rule id on its own |
| AutoEnforcer.UndoAddRestoresIff | dayshield-core/src/ai_firewall/auto_enforcer.rs:28-36 | Undoing an addition restores the list exactly when the added id was not yet in it |
| AutoEnforcer.UndoRemoveRestoresOrderIff | dayshield-core/src/ai_firewall/auto_enforcer.rs:49-66 | Undoing a removal restores the list, order included, exactly when the removed rule was last |
| AutoEnforcer.AddedRuleIsForTheEvent | dayshield-core/src/ai_firewall/auto_enforcer.rs:77-110 | An addition puts one enabled, logging rule behind the others: it drops what was to be denied and accepts what was to be allowed, on the event's interface, for its two addresses, protocol and ports |
| AutoEnforcer.EditChangesTwoFields | dayshield-core/src/ai_firewall/auto_enforcer.rs:41-49 | An edit changes source and destination port of the first rule with the target id, nothing else of it and no other rule, and logs it before and after |
| AutoEnforcer.RemovalTakesOneOut | dayshield-core/src/ai_firewall/auto_enforcer.rs:50-56 | A removal takes out the first rule with the target id, keeps the order of the others and logs it |
| AutoEnforcer.NoTargetNoChange | dayshield-core/src/ai_firewall/auto_enforcer.rs:41-56 | Without its target in the list an edit or a removal changes and logs nothing |
| AutoEnforcer.RuleList.ApplySuggestion | dayshield-core/src/ai_firewall/auto_enforcer.rs:26-57 | The edit in place yields the specified list and change for each of the four kinds of action, and neither when the target is missing |
| AutoEnforcer.RuleList.Undo | dayshield-core/src/ai_firewall/auto_enforcer.rs:59-75 | The undo in place yields the specified list for each kind of change |
| AutoEnforcer.RuleList.FindRule | dayshield-core/src/ai_firewall/auto_enforcer.rs:37-55 | Finds the first rule with an id, or that there is none |
| PolicyEngine.OwnRunsRestoreTheRules | dayshield-core/src/ai_firewall/engine.rs:570-789 | After any run on suggestions without targets, whose rule ids no original rule has, with undos by any interface in any order, suggestions applied more than once and any call failing (restoring saves working), persisted rules, cache and kernel agree, and whenever the log is empty, as after undoing what is left of it, all three are the original list, order included |
| PolicyEngine.EveryRunCanBeUnwound | dayshield-core/src/ai_firewall/engine.rs:570-789 | The same up to order for suggestions with targets too, if rules that are really added have new ids and undos by interface take an entry they may take |
| PolicyEngine.CallKeepsExplained | dayshield-core/src/ai_firewall/engine.rs:570-724 | Over every call, kind and rule id of each log entry follow from the suggestion its id leads to |
| PolicyEngine.AppliedTwiceUndoneOnce | dayshield-core/src/ai_firewall/engine.rs:570-652 | From any state in sync: two applies of one stored addition put its rule in the kernel twice, and one undo restores all three lists while the log has an entry more than before |
| PolicyEngine.ApplyKeepsUnwindableIff | dayshield-core/src/ai_firewall/engine.rs:570-652 | One apply or rejection, failed or not, leaves a state that can be unwound to the same rules exactly unless it goes through and adds a rule with an id already in the list |
| PolicyEngine.UndoKeepsUnwindable | dayshield-core/src/ai_firewall/engine.rs:676-724 | So does one undo, and if nothing fails it takes exactly the last entry off the log |
| PolicyEngine.UndoByInterfaceIff | dayshield-core/src/ai_firewall/engine.rs:676-724 | An undo by interface leaves a state that can be unwound exactly if the entry it picks may be undone while the last entry of its suggestion leaves the log |
| PolicyEngine.UnwindingEmptiesTheLog | dayshield-core/src/ai_firewall/engine.rs:676-724 | As many undos as there are entries empty the log and restore the original rules in all three places |
| PolicyEngine.InstallKeepsSyncIff | dayshield-core/src/ai_firewall/engine.rs:726-789 | An edit keeps the three copies equal exactly unless loading the kernel and the restoring save both fail (or nothing was to change); a failed edit with a working restore changes nothing |
| PolicyEngine.ApprovedAdditionIsApplied | dayshield-core/src/ai_firewall/engine.rs:570-652 | Approving a stored addition: its rule is last in all three lists, the entry names suggestion, interface, action, time and whether it was automatic, and the suggestion is marked applied if the log could be written |
| PolicyEngine.RejectionChangesNoRules | dayshield-core/src/ai_firewall/engine.rs:654-662 | A rejection marks the first suggestion with the id, or one made up for it that adds nothing, and touches neither rules nor log |
| PolicyEngine.UndoTakesTheLastOnTheInterface | dayshield-core/src/ai_firewall/engine.rs:676-724 | An undo for an interface takes back the last entry that names it, in whatever case, in all three lists |
| PolicyEngine.NothingToUndoOnTheInterface | dayshield-core/src/ai_firewall/engine.rs:682-699 | With no entry that names the interface an undo changes nothing |
| PolicyEngine.ActionMatchesIff | dayshield-core/src/ai_firewall/engine.rs:1584-1611 | An entry is on an interface exactly if it is logged under it or one of its rules is on it, ignoring case |
| PolicyEngine.EventActsOnlyIfPermitted | dayshield-core/src/ai_firewall/engine.rs:791-866 | An event that changes rules or log was permitted by its interface: full control, confidence at the threshold, intent, protocol, port, family, edit and remove permission, management interface and ports, and fewer automatic entries in the last hour than the limit |
| PolicyEngine.EventActsIfPermitted | dayshield-core/src/ai_firewall/engine.rs:300-317 | An event that is permitted acts: its new suggestion is applied automatically, in the kernel as well, with the right verdict |
| PolicyEngine.LetThroughIff | dayshield-core/src/ai_firewall/engine.rs:791-866 | The gate lets an event through exactly if its interface permits it |
| PolicyEngine.RecentCountIsCardinality | dayshield-core/src/ai_firewall/engine.rs:1702-1714 | The gate's count is the number of automatic entries of the last hour that name the interface |
| PolicyEngine.EventKeepsItsSuggestion | dayshield-core/src/ai_firewall/engine.rs:293-297 | Every event with a suggestion leaves it in the list behind the others |
| PolicyEngine.LimitHoldsThroughoutIff | dayshield-core/src/ai_firewall/engine.rs:300-317 | Over every run of events, manual applies and undos whose stamps are not before the log's, every one-hour window stays within the limit after every call exactly if every event that logs under the interface finds fewer than the limit in the hour before |
| PolicyEngine.HourlyLimitHolds | dayshield-core/src/ai_firewall/engine.rs:300-317 | The gate ensures this over every run, with any clock between calls, in which actions logged under the interface come from events of that interface |
| PolicyEngine.CallKeepsBoundIff | dayshield-core/src/ai_firewall/engine.rs:611-635 | The same for one call of any kind; calls by hand always keep the bound |
| PolicyEngine.EventKeepsBoundIff | dayshield-core/src/ai_firewall/engine.rs:300-317 | An event keeps the bound exactly if its guards will not let it log an action, or the suggestion its id leads to is for another interface, or the hour before held fewer than the limit |
| PolicyEngine.EventLogsIff | dayshield-core/src/ai_firewall/engine.rs:300-317 | An event adds to the log exactly when mode and gate let it through, the rules can be installed, and the suggestion found adds a rule or has its target in the list |
| PolicyEngine.EventKeepsBound | dayshield-core/src/ai_firewall/engine.rs:855-862 | The gate finds that room for an event whose action is logged under the event's own interface |
| PolicyEngine.WindowWithinRecent | dayshield-core/src/ai_firewall/engine.rs:1702-1714 | What the gate counts is at least what any hour that ends now or later holds, for every spelling of the interface |
| PolicyEngine.AppendKeepsBoundIff | dayshield-core/src/ai_firewall/engine.rs:855-862 | With no later stamps in the log, one more automatic entry is within the bound exactly when the hour before it held fewer than the limit |
| PolicyEngine.SharedIdsBreakTheLimit | dayshield-core/src/ai_firewall/rule_suggester.rs:98-118 | A concrete state and event: one id on two interfaces, and the limit of one per hour is passed on the first |
| PolicyEngine.Engine.InstallRules | dayshield-core/src/ai_firewall/engine.rs:760-789 | Persisted rules, cache and kernel after an edit, for every combination of failures |
| PolicyEngine.Engine.ApplyToFirewallRules | dayshield-core/src/ai_firewall/engine.rs:726-758 | The three lists and the change returned, for every combination of failures |
| PolicyEngine.Engine.RejectSuggestion | dayshield-core/src/ai_firewall/engine.rs:654-662 | Marks the first suggestion with the id rejected, or records a placeholder |
| PolicyEngine.Engine.ApplySuggestion | dayshield-core/src/ai_firewall/engine.rs:570-652 | The state after an apply, for every combination of failures; success is reported exactly if the suggestion was found, had something to do and every write worked |
| PolicyEngine.Engine.UndoLastAction | dayshield-core/src/ai_firewall/engine.rs:676-724 | The state after undoing the last action that matches an interface; success is reported exactly if there was one and every write worked |
| PolicyEngine.Engine.ProcessEvent | dayshield-core/src/ai_firewall/engine.rs:293-319 | The state after an event: the suggestion is kept, and applied if mode and gate allow it |
| ZeroTrust.MergeIsIdempotent | dayshield-core/src/ai_firewall/engine.rs:516-533 | Merging the baseline twice is merging it once, whatever ids either list repeats |
| ZeroTrust.MergeIsMerge | dayshield-core/src/ai_firewall/engine.rs:516-533 | The loop's result, said without the loop: old rules keep their places and only first holders of baseline ids change, to the last baseline rule with the id; new ids follow once each |
| ZeroTrust.UpsertKeepsIsMerge | dayshield-core/src/ai_firewall/engine.rs:520-531 | One more baseline rule extends a merge to a merge of the longer baseline |
| ZeroTrust.MergeKeepsUnrelatedRules | dayshield-core/src/ai_firewall/engine.rs:516-533 | Rules whose ids the baseline does not use keep content and relative order |
| ZeroTrust.MergeInstallsTheBaseline | dayshield-core/src/ai_firewall/engine.rs:516-533 | Every baseline id leads afterwards to the last baseline rule that has it |
| ZeroTrust.Bootstrap.InstallBaseline | dayshield-core/src/ai_firewall/engine.rs:516-533 | The loop computes the merge; added plus updated is the number of baseline rules and added is the growth of the list |
| EventKeys.KeyOrder | dayshield-core/src/ai_engine.rs:940-948 | For every u64 timestamp, byte order of keys is order by timestamp, then id |
| EventKeys.KeyInjective | dayshield-core/src/ai_engine.rs:940-948 | A key determines timestamp and id |
| EventKeys.DigitsOrder | dayshield-core/src/ai_engine.rs:941 | Zero-padded decimals of any one width compare byte-wise as numbers, and what follows them breaks ties |
| EventStore.InsertKeepsIndexIff | dayshield-core/src/ai_engine.rs:940-948 | An insert keeps events and index one-to-one exactly when the id is new or already leads to the same key |
| EventStore.InsertKeepsLinked | dayshield-core/src/ai_engine.rs:940-948 | Any insert, whatever its id, keeps both trees in order, events under their keys, and the index leading from exactly the stored ids to an event with the id |
| EventStore.IndexLeadsToTheLatest | dayshield-core/src/ai_engine.rs:940-968 | After any inserts at all an id leads to the event stored last under it, and to nothing if there is none |
| EventStore.InsertsKeepIndexIff | dayshield-core/src/ai_engine.rs:556-573 | After any inserts, rewrites among them, events and index are one-to-one exactly if no id was used with two timestamps |
| EventStore.FreshInsertsAreAllFound | dayshield-core/src/ai_engine.rs:940-968 | After any inserts with distinct ids the store holds each event once and finds each by id, and no others |
| EventStore.IterationIsOldestFirst | dayshield-core/src/ai_engine.rs:950-958 | Byte order of iteration is age, also when ids are reused |
| EventStore.CountsAreCardinalities | dayshield-core/src/ai_engine.rs:970-991 | The plain counts are the numbers of stored events recent enough and, for the one, from the address and at or above the threshold |
| EventStore.Store.InsertEvent | dayshield-core/src/ai_engine.rs:940-948 | Both trees after any insert; events and index stay one-to-one exactly when the id is new or leads to the same key |
| EventStore.Store.ListRecent | dayshield-core/src/ai_engine.rs:950-958 | Exactly the newest `limit` events, newest first, all older than none left out |
| EventStore.Store.GetById | dayshield-core/src/ai_engine.rs:960-968 | Finds the event with an id exactly when one is stored |
| EventStore.Store.CountRecentHighRisk | dayshield-core/src/ai_engine.rs:970-991 | The reverse scan that stops early counts the same as a plain count over all events |
| EventStore.Store.CountSince | dayshield-core/src/honeypot.rs:511-524 | The same for the honeypot's count |
| EventStore.Store.ApplyFeedback | dayshield-core/src/ai_engine.rs:556-573 | Changes the feedback of one event and nothing else, moves no key and keeps the index |
| Versions.IsRemoteVersionNewer | dayshield-core/src/update.rs:1747-1765 | The loop over indices decides zero-extended lexicographic order when both versions parse, and plain difference otherwise |
| Text.ValueOfDecimal | dayshield-core/src/update.rs:1736-1745 | Reading a segment undoes printing a number, with any number of leading zeros |
| Text.DigitsAreDecimal | dayshield-core/src/update.rs:1736-1745 | There is no other way to write digits |
| Versions.PrintedNumbersAreRead | dayshield-core/src/update.rs:1724-1745 | Two or more numbers printed and joined with dots have exactly themselves as segments if they fit a u64, and none otherwise |
| Versions.ReadNumbersArePrinted | dayshield-core/src/update.rs:1724-1745 | A text that has segments is these numbers printed |
| Versions.NewerAtFirstDifference | dayshield-core/src/update.rs:1747-1765 | Of two printed versions the one with the greater number at the first difference is newer, a missing number being zero |
| Versions.LessAtFirstDifference | dayshield-core/src/update.rs:1755-1764 | In that order the first differing segment decides |
| Versions.LessTransitive | dayshield-core/src/update.rs:1747-1765 | The order is transitive |
| Versions.NotLessTransitive | dayshield-core/src/update.rs:1747-1765 | It is a strict weak order: ties group into classes |
| Versions.TiesAreZeroExtensions | dayshield-core/src/update.rs:1752-1764 | Two versions tie exactly when they are equal up to trailing zero segments |
| Versions.NotNewerThanItself | dayshield-core/src/update.rs:1747-1765 | No version, parsed or not, is newer than itself |
| Versions.NewerBothWaysIff | dayshield-core/src/update.rs:1748-1750 | Two versions are each newer than the other exactly when they differ and one does not parse |
| Versions.NameFormatRoundTrip | dayshield-core/src/update.rs:1708-1734 | A version is read exactly from the file names the format gives to it, and only well-formed versions are read |
| AtomicInstall.OldOrNewIsAlwaysWhole | dayshield-core/src/update.rs:1033-1082 | At every step of an install over an existing target, the whole old content is under target or backup, or the whole new content under target |
| AtomicInstall.TargetIsNeverPartial | dayshield-core/src/update.rs:1101-1150 | The target is at every step the old, absent or the whole new content |
| AtomicInstall.InstallOutcome | dayshield-core/src/update.rs:1033-1082 | Success means the new content is in place; a failure leaves the target as it was exactly unless it was moved aside and could not be moved back, and then the backup has it |
| AtomicInstall.InstallSucceedsIff | dayshield-core/src/update.rs:1050-1082 | An install succeeds exactly if the copy, its mode, moving aside what is there and moving the copy in all work |
| AtomicInstall.NothingMovesBeforeTheCopy | dayshield-core/src/update.rs:1050-1069 | Until the copy and its mode are complete, target and backup are as they were |
| AtomicInstall.StagedCopyIsGoneIff | dayshield-core/src/update.rs:1071-1077 | Exactly when the staged copy is left behind |
| AtomicInstall.SuccessfulInstallIsTidy | dayshield-core/src/update.rs:1071-1082 | A success leaves no temporary names exactly when there was no old target or its removal works |
| AtomicInstall.Installer.InstallAtomic | dayshield-core/src/update.rs:1101-1150 | The install in place passes through exactly the states the lemmas speak of, for every combination of failures |
| ComponentUpdates.RecordMatchesDeployment | dayshield-core/src/update.rs:2355-3280 | Over every run of checks, applies and rollbacks that may fail anywhere, the recorded version is the deployed one, if the component is rolled back at most once between its snapshots, first checks are made by the deployed release and no install loses the version on record; what happens to the other component does not count |
| ComponentUpdates.ApplyKeepsConsistentIff | dayshield-core/src/update.rs:2448-2916 | One apply, wherever it fails, keeps the record right exactly unless it reaches the component's deploy and that loses the version on record |
| ComponentUpdates.RollbackKeepsConsistentIff | dayshield-core/src/update.rs:3202-3280 | The same for a rollback of several components |
| ComponentUpdates.DeployIsInstall | dayshield-core/src/update.rs:1033-1082 | Deploying leaves under the component's name exactly what the install of the new version leaves, for every combination of failing commands |
| ComponentUpdates.RestoreIsInstall | dayshield-core/src/update.rs:906-927 | Restoring leaves exactly what the install of the snapshot leaves |
| ComponentUpdates.CheckOneKeepsConsistentIff | dayshield-core/src/update.rs:732-747 | A check keeps the record right exactly when a version was recorded before or the running binary's version is the deployed one |
| ComponentUpdates.CheckOffersWhatIsNewer | dayshield-core/src/update.rs:2380-2398 | After a check each listed component is recorded with the version it is taken for, the version listed and an update on offer exactly if that is newer |
| ComponentUpdates.NewerReleaseIsOffered | dayshield-core/src/update.rs:2380-2398 | A release with a greater number at the first difference is on offer after the check, a smaller one is not |
| ComponentUpdates.CheckLeavesTheRest | dayshield-core/src/update.rs:2380-2398 | A component not listed is left alone, and nothing deployed is touched |
| ComponentUpdates.FindIsFirst | dayshield-core/src/update.rs:2506-2511 | The manifest's first artifact for a component counts |
| ComponentUpdates.FetchesExactly | dayshield-core/src/update.rs:2514-2548 | An apply fetches exactly the selected listed artifacts that are newer than the version taken, or of a component with no entry |
| ComponentUpdates.ApplyInstalls | dayshield-core/src/update.rs:2824-2916 | A faultless apply: what it fetched is deployed and on record, and what was there is in the snapshot and on record for a rollback |
| ComponentUpdates.ApplyLeavesTheRest | dayshield-core/src/update.rs:2824-2916 | It leaves a component not selected alone |
| ComponentUpdates.RollbackUndoesApply | dayshield-core/src/update.rs:3202-3280 | A rollback right after it brings back the version deployed before, on record too, with the one applied to go back to |
| ComponentUpdates.FailedSnapshot | dayshield-core/src/update.rs:856-904 | A failed snapshot leaves the old one or none, puts nothing on record and never touches what is deployed |
| ComponentUpdates.ApplyStopsEarly | dayshield-core/src/update.rs:2448-2823 | A failed download or config snapshot stops an apply before it touches anything |
| ComponentUpdates.RollbackWithoutEffect | dayshield-core/src/update.rs:3202-3280 | What a rollback of one component leaves alone when it has nothing to go back to or fails, and what it sets when it goes through |
| ComponentUpdates.RollbackOneKeepsConsistentIff | dayshield-core/src/update.rs:3202-3280 | The first rollback after a snapshot keeps the component's record right exactly unless it loses the version on record, and never touches the other component's |
| ComponentUpdates.RollbackRecordsIff | dayshield-core/src/update.rs:3240-3280 | A rollback records what it installed exactly when the snapshot is of the version it is taken for |
| ComponentUpdates.SecondRollbackMisrecordsIff | dayshield-core/src/update.rs:3240-3280 | Two rollbacks in a row install the same snapshot twice, and the record is then wrong exactly when the two versions differ |
| ComponentUpdates.FirstCheckAfterACoreUpdateMisrecordsTheUi | dayshield-core/src/update.rs:726-747 | For any two versions: core is updated before the UI was ever recorded, and the next check records the core's version for the UI and offers no update |
| ComponentUpdates.NoDowngradeAndNoRepeatedOffer | dayshield-core/src/update.rs:2514-2548 | Over checks, applies of releases that parse and rollbacks of the other component, no version below a recorded one is ever recorded, and whatever is offered later is strictly newer |
| ComponentUpdates.RunKeepsAtLeast | dayshield-core/src/update.rs:2514-2548 | Recorded versions only go up along such runs |
| ComponentUpdates.UpdateManager.CheckForUpdates | dayshield-core/src/update.rs:2380-2398 | The loop over the manifest leaves exactly the specified entries |
| ComponentUpdates.UpdateManager.ApplyUpdates | dayshield-core/src/update.rs:2448-2916 | Entries, deployed versions and snapshots after an apply that may fail at any component of any phase; success is reported exactly if there was nothing to fetch or everything worked |
| ComponentUpdates.UpdateManager.FetchArtifacts | dayshield-core/src/update.rs:2514-2548 | Fetches exactly the selected listed artifacts that are newer than the recorded version, or of a component with no entry |
| ComponentUpdates.UpdateManager.SnapshotSelected | dayshield-core/src/update.rs:2824-2861 | Takes the snapshots in order up to the first failure, each with the version recorded for it |
| ComponentUpdates.UpdateManager.SnapshotRuntime | dayshield-core/src/update.rs:856-904 | Replaces one snapshot by a copy of what is deployed, or leaves the old one or none |
| ComponentUpdates.UpdateManager.DeployDownloads | dayshield-core/src/update.rs:2894-2916 | Deploys and records in order up to the first failure |
| ComponentUpdates.UpdateManager.RollbackUpdates | dayshield-core/src/update.rs:3202-3280 | Restores snapshots and swaps recorded versions in order up to the first failure |
| UpdateSchedule.AtMostOneRunPerOccurrence | dayshield-core/src/update.rs:3877-3933 | With fixed settings and dates that do not go back, no two checks start for one occurrence, whatever the state file held first and wherever saves fail or the process stops |
| UpdateSchedule.ExactlyOncePerDueDate | dayshield-core/src/update.rs:3877-3933 | With working saves and no stops a check starts on a date exactly when a tick of that date found an occurrence due, and never twice |
| UpdateSchedule.KeyDeterminesDate | dayshield-core/src/update.rs:3887-3917 | Under fixed settings an occurrence key belongs to one date |
| UpdateSchedule.OccurrencesAreDueIff | dayshield-core/src/update.rs:3887-3917 | An occurrence is due every day, or on the chosen weekday, or on the first or last day of the month, as chosen |
| UpdateSchedule.TickStartsIff | dayshield-core/src/update.rs:3869-3933 | A tick starts a check exactly if checking is on, the time has come and an occurrence is due and unclaimed, and claims it if the claim can be saved |
| UpdateSchedule.WeekdaysAreThoseInUse | dayshield-core/src/update.rs:206-216 | The calendar is the one in use: 1 January 2024 was a Monday, and weekdays follow each other |
| UpdateSchedule.YearStartIs | dayshield-core/src/update.rs:165-175 | The Gregorian leap rule, as a closed form for the days before a year |
| UpdateSchedule.WeekAndWeekdayDetermineTheDate | dayshield-core/src/update.rs:3887-3917 | A weekday of an ISO year and week is one date |
| UpdateSchedule.IsoYearHoldsTheThursday | dayshield-core/src/update.rs:3887-3917 | The ISO year is the year that holds the week's Thursday, and the week number is between 1 and 53 |
| UpdateSchedule.DayNumberOrder | dayshield-core/src/update.rs:3887-3917 | Days are numbered in calendar order |
| UpdateSchedule.LastDayIsMonthLength | dayshield-core/src/update.rs:165-175 | The day before the first of the next month is the month's length, and the day after it is that first |
| UpdateSchedule.UpdateChecker.OnTick | dayshield-core/src/update.rs:3877-3933 | One turn of the loop: the claim is saved before the check starts, and a check starts only with a new claim |
| CaptivePortal.AlwaysOnePerIp | dayshield-core/src/captive_portal.rs:377-582 | Over any run of requests there is at most one session per client address |
| CaptivePortal.RequestKeepsOnePerIp | dayshield-core/src/captive_portal.rs:377-582 | Each request keeps it, failed or not |
| CaptivePortal.RefreshNeverExtendsExpiry | dayshield-core/src/captive_portal.rs:467-498 | Over any run a session keeps its expiry, so it is never active at or past it |
| CaptivePortal.InactiveStaysInactive | dayshield-core/src/captive_portal.rs:765-779 | While no edit of the config is accepted, a session once expired or idle is inactive in every later state |
| CaptivePortal.SessionsComeFromSessions | dayshield-core/src/captive_portal.rs:377-641 | A session found after a request, unless just issued, was there before with the same address, expiry and voucher, and was refreshed only if active |
| CaptivePortal.IssuedSessionsAreCounted | dayshield-core/src/captive_portal.rs:533-562 | Between accepted config edits, sessions issued on a voucher are at most the uses gained, and no limit is passed, as long as the voucher is not redeemed with a saturated unlimited counter |
| CaptivePortal.RoomIsEnough | dayshield-core/src/captive_portal.rs:825-826 | That is so when the counters have room for one use per request at the start |
| CaptivePortal.AuthorizeCountsIff | dayshield-core/src/captive_portal.rs:781-827 | A request that issues a session on a voucher counts it exactly unless the voucher is unlimited and its counter saturated |
| CaptivePortal.RedeemingCountsIff | dayshield-core/src/captive_portal.rs:820-826 | Redeeming adds one use exactly unless an unlimited counter is saturated, and never passes a limit |
| CaptivePortal.LimitsAlwaysHold | dayshield-core/src/captive_portal.rs:781-827 | Over any run, config edits included, no voucher's uses pass its limit |
| CaptivePortal.ClientIsLetInIff | dayshield-core/src/captive_portal.rs:500-571 | With every write working a client is let in exactly if the portal is on, its terms are accepted, address and MAC are good and, in voucher mode, the first voucher with the code is enabled, not expired and has a use left |
| CaptivePortal.OnlyWhoMayEnter | dayshield-core/src/captive_portal.rs:500-571 | Whatever fails, a client who may not enter is not let in and changes nothing |
| CaptivePortal.GrantedSessionLasts | dayshield-core/src/captive_portal.rs:548-562 | A client let in has one session, under the new id and its own address, active for exactly the configured time and idle timeout |
| CaptivePortal.CreateIsAcceptedIff | dayshield-core/src/captive_portal.rs:377-405 | An administrator's session is accepted exactly if its texts are valid and it lasts a minute at least |
| CaptivePortal.CreatedSessionLasts | dayshield-core/src/captive_portal.rs:407-425 | It is for the time asked or else the configured one, and replaces the address's session |
| CaptivePortal.RevokedAndLoggedOutAreGone | dayshield-core/src/captive_portal.rs:427-443 | A revoked session is gone, and so are all of a client that logs out |
| CaptivePortal.OthersKeepTheirSessions | dayshield-core/src/captive_portal.rs:377-584 | No request ends an active session it does not concern, whatever fails |
| CaptivePortal.StatusRefreshesTheActive | dayshield-core/src/captive_portal.rs:477-489 | A status request moves the last-seen time of the client's active session to now and changes nothing else |
| CaptivePortal.ConfigIsAcceptedIff | dayshield-core/src/config/models.rs:3524-3630 | A config is refused exactly unless its sessions last a minute, limited vouchers are within a limit of one or more, and every voucher is the one found by its code |
| CaptivePortal.ReloadKeepsExactlyTheActive | dayshield-core/src/captive_portal.rs:631-658 | Loading the rules keeps exactly the sessions not expired and not idle |
| CaptivePortal.ReloadOutcome | dayshield-core/src/captive_portal.rs:641-676 | The loader's answer, and what it leaves alone when something fails |
| CaptivePortal.ReapKeepsExactlyTheActive | dayshield-core/src/captive_portal.rs:249-282 | The reaper keeps exactly the active sessions of a portal that is on and leaves one that is off alone |
| CaptivePortal.UnsavedChangesNothing | dayshield-core/src/captive_portal.rs:599-617 | A change of sessions or config that cannot be saved is not made, and is answered with an error |
| CaptivePortal.UseIsSpentWithoutASession | dayshield-core/src/captive_portal.rs:534-562 | If only the session cannot be saved, a redeemed voucher's use is counted all the same |
| CaptivePortal.Portal.UpdateAdminConfig | dayshield-core/src/captive_portal.rs:296-330 | An invalid config or one that cannot be saved changes nothing; otherwise sessions are pruned by it, and a failed save of them or a failed reload leaves the new config in place |
| CaptivePortal.Portal.CreateAdminSession | dayshield-core/src/captive_portal.rs:377-425 | Refuses short lifetimes and bad addresses; otherwise replaces the address's session, whether or not the reload then works |
| CaptivePortal.Portal.RevokeAdminSession | dayshield-core/src/captive_portal.rs:427-443 | Removes every session with the id, or reports that there is none |
| CaptivePortal.Portal.PublicStatus | dayshield-core/src/captive_portal.rs:467-498 | Refreshes the last-seen time of the peer's active session only, answers whether there is one, and refuses a request with no peer address |
| CaptivePortal.Portal.PublicAuthorize | dayshield-core/src/captive_portal.rs:500-571 | The state and answer for each refusal (portal off, terms, address, MAC, voucher), for each failed save or reload and for success |
| CaptivePortal.Portal.RedeemVoucher | dayshield-core/src/captive_portal.rs:781-827 | Counts a use of the first voucher with the code exactly when it may be redeemed, and names the refusal otherwise |
| CaptivePortal.Portal.PublicLogout | dayshield-core/src/captive_portal.rs:573-584 | Removes every session of the peer's address |
| CaptivePortal.Portal.ReapSessions | dayshield-core/src/captive_portal.rs:249-282 | Drops exactly the inactive sessions, and nothing while the portal is off |
| CaptivePortal.Portal.ApplyCurrentRuleset | dayshield-core/src/captive_portal.rs:641-676 | Loading the rules drops exactly the inactive sessions, or none if they cannot be saved, and reports each failure |
| Ipv6Text.MembershipIsPrefixEquality | dayshield-core/src/config/models.rs:514-535 | An address is in a CIDR exactly when both parse and agree in the first prefix bits |
| Ipv6Text.NormalizingKeepsMembers | dayshield-core/src/config/models.rs:495-512 | Clearing a subnet's host bits changes none of its members, and doing it again changes nothing |
| Ipv6Text.ShownCidrIsRead | dayshield-core/src/config/models.rs:495-512 | A printed CIDR is read back as the same network and prefix |
| Ipv6Text.ClearLowIsIdempotent | dayshield-core/src/config/models.rs:480-493 | Clearing low bits twice is clearing them once, and never increases an address |
| Ipv6Text.ClearLowIsRounding | dayshield-core/src/config/models.rs:480-493 | Masking is rounding an address down to a multiple of a power of two |
| Ipv6Text.CidrIsReadIff | dayshield-core/src/config/models.rs:495-510 | What is read as a CIDR: an address and a prefix of at most 128 around a slash, or a bare address, which gets 64 |
| Ipv6Text.DecimalIsLawful | dayshield-core/src/config/models.rs:495-512 | The laws asked of the address parser and printer can be met |
| Dhcp6.ReservationsStaySound | dayshield-core/src/api/dhcp.rs:2060-2251 | From the empty config, after any requests: every reservation lies in its scope's subnet, no two share a DUID or an address text ignoring case, and saved subnets have their host bits cleared |
| Dhcp6.RequestKeepsSound | dayshield-core/src/api/dhcp.rs:2270-2623 | Each request keeps this, accepted or refused |
| Dhcp6.NormalizingKeepsSound | dayshield-core/src/api/dhcp.rs:1901-1907 | Normalising subnets changes neither the reservations nor which of them fit |
| Dhcp6.NormalizingIsCanonical | dayshield-core/src/api/dhcp.rs:1901-1907 | Afterwards every subnet that parses is in normal form |
| Dhcp6.PlacingKeepsSound | dayshield-core/src/api/dhcp.rs:2163-2251 | A reservation that is accepted is in the subnet of the first scope that covers it and clashes with none |
| Dhcp6.AcceptedRequestsChangeReservationsSo | dayshield-core/src/api/dhcp.rs:2270-2623 | An accepted update leaves all reservations alone, a create adds exactly the one asked for, a delete drops exactly those with the id and at least one |
| Dhcp6.AddressesStayDistinctIff | dayshield-core/src/api/dhcp.rs:2163-2251 | Throughout a run no address is reserved twice exactly if every create that its guards let through is for an address no reservation has under any spelling |
| Dhcp6.CreateIsAcceptedIff | dayshield-core/src/api/dhcp.rs:2163-2251 | A create is accepted exactly when the interface fits, its texts are valid and not in use, some scope covers the address and the config is valid as it stands |
| Dhcp6.UpdateIsAcceptedIff | dayshield-core/src/api/dhcp.rs:2270-2379 | An update is accepted exactly if the subnet given is one and what comes out is presentable |
| Dhcp6.DeleteIsAcceptedIff | dayshield-core/src/api/dhcp.rs:2512-2623 | A delete is accepted exactly if a reservation has the id and, on the routes of one interface, it is the configured one and the rest is presentable |
| Dhcp6.PresentableIff | dayshield-core/src/api/dhcp.rs:1916-2038 | Validation accepts exactly configs that are on only with an interface and a scope, with pools in order inside full-CIDR subnets, leases that last, and reservations with a DUID, an address of the subnet and servers that are addresses |
| Dhcp6.ScopesStayServable | dayshield-core/src/api/dhcp.rs:1916-2038 | From the empty config, after any requests, every saved scope can be served from, and the service is on only with an interface and a scope |
| Dhcp6.UpdateSetsWhatIsGiven | dayshield-core/src/api/dhcp.rs:2096-2122 | Field by field: a value given replaces the old one without outer white space, one not given stays, and so do the other scopes |
| Dhcp6.UpdateSetsTheSubnet | dayshield-core/src/api/dhcp.rs:2094-2096 | The subnet's members are those of the one given, or else those from before |
| Dhcp6.UpdateMakesTheFirstScope | dayshield-core/src/api/dhcp.rs:2066-2091 | The first scope is made if the service is on or a value for it given, with a day of lease time and otherwise only what is given |
| Dhcp6.UpdateMakesTheFirstSubnet | dayshield-core/src/api/dhcp.rs:2071-2079 | Its subnet is the one given, else that of the first address of the range, else a default |
| Dhcp6.DuidOfARequest | dayshield-core/src/api/dhcp.rs:2137-2161 | A DUID is the one given, else type 3 and the MAC address given, in lower case, and a request with neither is refused |
| Dhcp6.DuidAndMacIff | dayshield-core/src/api/dhcp.rs:2137-2161 | A DUID is three or more pairs of hexadecimal digits joined by colons, a MAC address six |
| Dhcp6.ReservationOfARequest | dayshield-core/src/api/dhcp.rs:1881-1899 | A reservation has exactly the texts requested without outer white space, and is refused exactly if one that should be an address is none |
| Dhcp6.TwoSpellingsAreBothReserved | dayshield-core/src/api/dhcp.rs:2163-2251 | Any two valid leases that write one address in two ways and have different DUIDs are both accepted: three requests lead from the empty config to two reservations of the address |
| Dhcp6.OneAddressReservedTwice | dayshield-core/src/api/dhcp.rs:2163-2251 | Such an input: two leases for `1` and `01` under a codec that reads both as one address |
| Dhcp6.Dhcp6Service.UpdateConfig | dayshield-core/src/api/dhcp.rs:2270-2379 | The saved config and answer for both update routes, every refusal leaving the config alone |
| Dhcp6.Dhcp6Service.EditFirstScope | dayshield-core/src/api/dhcp.rs:2060-2123 | The edit field by field yields the specified config |
| Dhcp6.Dhcp6Service.CreateStaticLease | dayshield-core/src/api/dhcp.rs:2436-2510 | The same for both create routes |
| Dhcp6.Dhcp6Service.DeleteStaticLease | dayshield-core/src/api/dhcp.rs:2512-2623 | The same for both delete routes |
| Dhcp6.Dhcp6Service.NormalizeSubnets | dayshield-core/src/api/dhcp.rs:1901-1907 | The loop normalises every scope's subnet and touches nothing else |
| Dhcp6.Dhcp6Service.FindScope | dayshield-core/src/api/dhcp.rs:2163-2251 | Finds the first scope whose subnet covers the address |
| LoginLockout.FailuresAreBounded | dayshield-core/src/api/auth.rs:149-211 | Over any requests, on this name and others, the failures recorded since the last success are at most the limit plus one per full lockout they span, up to 2^32 of them |
| LoginLockout.TheBoundIsTight | dayshield-core/src/api/auth.rs:149-211 | For each number of failures within that range there is a run that reaches the bound exactly |
| LoginLockout.TheBoundEndsWhereTheCounterWraps | dayshield-core/src/api/auth.rs:174-181 | The range is exact: with one failure more there is a run that passes the bound, because the wrapped counter sets no lock |
| LoginLockout.FailuresAreSpaced | dayshield-core/src/api/auth.rs:149-211 | Counter, lock time and recorded failures belong together; from the limit on, failures are a lockout apart |
| LoginLockout.LockedIffRecentlyFailed | dayshield-core/src/api/auth.rs:149-163 | Over any run a request is answered as locked exactly while the name's failures since its last success have reached the limit and the last is less than a lockout ago, right password or not, and the answer says for how long |
| LoginLockout.OutcomeIff | dayshield-core/src/api/auth.rs:149-211 | Every other answer, exactly; other names' counters are never touched and a success clears the name's own |
| LoginLockout.LoginGate.Login | dayshield-core/src/api/auth.rs:149-211 | The counters and the answer of one request, for each way it can end |
| LoginLockout.LoginGate.RecordFailure | dayshield-core/src/api/auth.rs:173-182 | Counts one failure of one name and sets its lock from the limit on |
| KeaCsv.ParseCsvLine | dayshield-core/src/api/dhcp.rs:813-836 | The character loop computes the scanner's columns |
| KeaCsv.RoundTripIff | dayshield-core/src/api/dhcp.rs:813-836 | For fields printed quoted or, where RFC 4180 allows it, plain, the scanner returns them exactly when there is at least one and none has white space at either end |
| KeaCsv.ScanUndoesPrint | dayshield-core/src/api/dhcp.rs:813-836 | A printed line scans to its values, each trimmed, with embedded commas, quotes and line breaks kept |
| KeaCsv.ScanPieces | dayshield-core/src/api/dhcp.rs:813-836 | Quotes may open and close anywhere in a column: they are dropped, and what is between them, commas included, belongs to the column |
| KeaCsv.UnclosedQuoteTakesTheRest | dayshield-core/src/api/dhcp.rs:813-836 | A quote never closed takes the rest of the line into one column |
| ShellQuote.ShellReadsTheArguments | dayshield-core/src/utils.rs:115-140 | A tokenizer for section 2.2 of the POSIX.1-2017 Shell Command Language returns exactly the arguments that were quoted and joined, for every list of strings |
| ShellQuote.ReadQuoted | dayshield-core/src/utils.rs:115-117 | A quoted argument is read as one word whatever follows it |
| ShellQuote.JoinQuotedIsInjective | dayshield-core/src/utils.rs:138-140 | Different argument lists give different command lines |

## Left out

- Root slots: mkfs, unsquashfs, mount, copies and renames are steps that may fail, not commands; identity files, staging cleanup and timestamps hold no protocol state. Finding out the running slot is assumed to work by label, and `slots.json` to be absent or whole.
- Root slots: GRUB's own script is not part of this model; its rule is taken from the module documentation, and an unset attempt counter on probation is read as none left.
- Root slots: the grubenv writes of one call are one step in the runs. `RootfsUpdate.SplitArmingFallsBackIff` says what happens otherwise.
- Root slots: the scheduled path that calls `apply_update` after staging has been emptied; nothing is claimed about it.
- HourlyLimitHolds: assumes that actions logged under the interface come from events of that interface, which `PolicyEngine.SharedIdsBreakTheLimit` shows the code not to ensure; `PolicyEngine.LimitHoldsThroughoutIff` is the exact condition.
- OwnRunsRestoreTheRules: assumes that ids of added rules, which are hashes, are not ids of rules the user made.
- EveryRunCanBeUnwound: assumes that ids of added rules are new when they are added and that an undo by interface takes an entry it may take; `PolicyEngine.ApplyKeepsUnwindableIff` and `PolicyEngine.UndoByInterfaceIff` are the exact conditions.
- Policy engine: classifying events, resolving intents and the recent-event buffer give the inputs of an event and are not modelled. On-disk log and suggestion files appear only as writes that may fail. The calls are sequential.
- Policy engine: the contents of the zero-trust baseline and the hardened settings; the merge is proved for every baseline. Traffic candidates are left out, and so are rule fields the engine never reads.
- Event stores: sled and serde are ordered lists and values; a crash between the two tree inserts, block escalation, active blocks and the per-address summaries are left out.
- RecordMatchesDeployment: snapshots are all or nothing, and a first check is made by the deployed release; `ComponentUpdates.ApplyKeepsConsistentIff`, `ComponentUpdates.RollbackKeepsConsistentIff` and `ComponentUpdates.CheckOneKeepsConsistentIff` are the exact conditions per operation.
- Component updates: the root image component, downloads, signatures, the config snapshot's contents, the atomicity constraint, operation logs, and a stop between a change on disk and the saved state.
- Schedule: keys are values instead of formatted text, the state file is assumed readable, and a local clock set back across midnight, by however little, is outside the hypothesis that dates do not go back.
- IssuedSessionsAreCounted: assumes that no saturated counter is used; `CaptivePortal.AuthorizeCountsIff` is the exact condition per request.
- Captive portal: whether a text is an address or a MAC address is an input, and normalising submitted text, user agents and overflow of dates are left out. A handler that cannot read a file stops there, and is not listed as a case of its own.
- DHCPv6: the parser and printer of addresses are parameters with stated laws. Host names and descriptions, the reload after a save, leases read from Kea, and the IPv4 side are left out.
- Login: Argon2, JWT and the audit log. A run is a sequence of requests, so attempts whose password checks overlap in time are not modelled. The failure counter wraps at 2^32, which it does in builds without overflow checks.
- KeaCsv: header and column lookup.
- ShellQuote: the tokenizer gives no meaning to unquoted operators and expansions and refuses them.
