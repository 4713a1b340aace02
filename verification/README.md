# SendGuard: verified model

This project models the parts of the SendGuard agent whose correctness spans many steps, and
proves what they promise. Each module stands for one component of the agent; classes hold the
fields that the component updates in place, and every method is proved against a specification
function. What such a function computes is in turn pinned down by theorems that do not name it:
they speak of requests, events and log lines, and of what is left behind.

- **Ban lifecycle** (`Bans`, `Enforcer`, `BanEffects`, `BanOutcomes`, `BanSafety`, `BanIndex`,
  `BanSilence`, `BanEnforcement`, `BanRaces`, `BanGuards`).
  One ban is recorded five times: in `blockedIPs`, in `blockedNets`, in the bans table, in the
  silenced set of the detection engine and in the firewall. An operation (block, extend,
  unblock, expire, reconcile, load, prune) is a list of small steps, one for each lock section
  and each external call. The class `Enforcer` makes those steps and records them in a ghost
  log; the theorems are about all runs of operations, firewall reloads and crashes between any
  two steps. Every clock reading, every command result (what it reports and what it really did)
  and the order in which a map is visited is a parameter.
- **Targets and rules** (`Ipv4`, `TargetText`, `FirewallRules`). Addresses and networks, their
  text, the private-network check (section 3 of RFC 1918, loopback, link-local), and the
  firewalld rich rules printed and read back.
- **Whitelist** (`Whitelist`) and **country lists** (`Countries`).
- **Mail log** (`MailLog`). The events of classified lines, and the queue-ID correlation.
- **Detectors** (`Windows`, `Feeds`, `AuthFailed`, `DistBrute`, `SaslConnections`,
  `DomainDiscovery`, `AccountTakeover`, `ImpossibleTraveler`). Each is compared with a definition
  on the full history in which nothing is trimmed or pruned, down to the events it is fed with;
  `AccountTakeover` also for times in any order.
- **Across components**: from log lines to the alerts of the brute-force detector (`LogAlerts`),
  and from the alerts of two detectors to what the enforcer answers (`Suspensions`).
- **Delivery** (`Watcher`, `Forwarder`, `Throttle`). Line draining, store and forward, and the
  two-limit throttle.

Time is an integer number of nanoseconds. Where the code does not keep what one might expect,
a lemma names the input and another gives the exact condition:

- The private check looks at the base address only. It is sound for a prefix length exactly
  when that is 0 or at least 15 (`Ipv4.PrivateCheckExact`); `Ipv4.PrivateCheckMisses` gives
  networks that pass, `Ipv4.PassingTouchesExactly` says which do.
- A firewalld rule starts its timeout when the command is run, and a rule that is there already
  is taken for a success. A target blocked again between the end of its ban and the end of its
  rule is live without a rule soon after (`BanOutcomes.ReblockInGapLosesRule`). The exact
  condition is `BanOutcomes.BlockEnforcedExactly` for a request, whatever the commands report
  and do, `BanOutcomes.ShortRuleIsKept` as a guard on the rules before the call, and
  `BanEnforcement.EnforcedExactlyOverRuns` for a run.
- `extendBan`'s fallback may install a permanent firewalld rule for a ban that has ended
  (`Bans.FallbackTurnsPermanent`).
- An unblock during the roll-back of an extension leaves a network out of the index
  (`BanIndex.RollbackAfterUnblock`; exactly `BanIndex.AgreementLostExactlyBy`), and a new block
  during the expiry clean-up is undone everywhere but in memory (`BanRaces.ReblockDuringExpiry`;
  exactly `BanRaces.CleanupExact`, and step by step `BanRaces.StepKeepsExactly`).
- `1.2.3.4` and `1.2.3.4/32` are two bans with one silence entry
  (`BanSilence.TwoNamesLoseSilence`; exactly `BanSilence.SilencedExactlyOverRuns`). The comment on `fwKey` treats
  them as one; the maps do not.
- The comment on `staleAfter` calls a day far above any reasonable window; nothing enforces it,
  and the pruning loses alerts for every longer window (`ImpossibleTraveler.LongWindowsLoseAlerts`).
- A read error in `drainLines` may leave the cursor inside a line (`Watchers.FailedReadTearsLine`).

`dafny verify dfyconfig.toml` checks the whole project.

## Model

| member | source | states |
|---|---|---|
| BanSafety.CrashConsistency | internal/enforcement/enforcer.go:821-833 | Crash consistency: cut any operation off between any two of its steps, change the firewall at will, restart with a readable store and a firewall that answers: memory holds exactly the unexpired persisted bans, each indexed and silenced, each present in the firewall up to `fwKey` or re-applied with a rule that outlasts it unless its own command failed; no running promise is lost or shortened |
| BanSafety.CrashConsistencyOverRuns | internal/enforcement/enforcer.go:821-833 | The same after any run of operations, reloads and earlier crashes |
| BanSafety.RunsAreSafe | internal/enforcement/enforcer.go:326-443 | Every state between two events of every run, with every target (operations, reloads, crashes, starts with or without a readable store): index and map agree; every ban reported as applied and persisted is kept by store and memory until its time, an unblock, or a start at which the store could not be read |
| BanSafety.OperationKeepsInv | internal/enforcement/enforcer.go:386-440 | Block, extend, unblock, expire, reconcile, prune, restart and the import of listed rules each keep that invariant, whatever every external call returns |
| BanSafety.CrashKeepsInv | internal/enforcement/enforcer.go:821-833 | So does an operation cut off anywhere, followed by a restart |
| BanSafety.OperationKeepsRow | internal/enforcement/enforcer.go:395-401 | Write-ahead order: no step of any operation takes from the store a row that a running ban needs |
| BanSafety.PromisesSurviveInterruption | internal/enforcement/enforcer.go:395-401 | After any prefix of any operation the store still holds every ban that will be running when the agent is back |
| BanSafety.RestartEstablishesInv | internal/enforcement/enforcer.go:931-958 | A restart re-establishes index, silence and promises from the store alone |
| BanSafety.ImportEffect | internal/enforcement/enforcer.go:963-998 | A start without the store: exactly the listed rules are blocked, indexed and silenced; store and firewall are as they were |
| BanSafety.FreshStartIsSafe | internal/enforcement/enforcer.go:132-143 | A new process with any store and firewall satisfies the invariant |
| BanOutcomes.ReconcileStabilises | internal/enforcement/enforcer.go:871-927 | From arbitrary firewall contents: one pass whose listing succeeds removes no rule, changes nothing in the agent, and leaves every ban live throughout present or re-applied for its remaining life unless its command failed |
| BanOutcomes.ReappliedOutlasts | internal/enforcement/enforcer.go:871-927 | The re-applied TTL lies in (remaining, remaining + 1 s] at the snapshot and is permanent exactly when 50 years or more remain |
| BanOutcomes.ReconcileOrderIrrelevant | internal/enforcement/enforcer.go:902-922 | The map iteration order makes no difference to a pass |
| BanOutcomes.ReconcileSettles | internal/enforcement/enforcer.go:871-927 | A ban one pass re-applied is not re-applied by a later pass while it lives |
| BanOutcomes.OthersUntouched | internal/enforcement/enforcer.go:326-443 | A block request changes nothing about any other target and silences nobody else |
| BanOutcomes.AppliedMeansBlocked | internal/enforcement/enforcer.go:386-440 | Applied: live in map until the requested expiry, persisted at least as long if the store took it, silenced; and backed by a rule that lasts as long if and only if a command really added one, or the rule found there lasts as long (a success may have changed nothing) |
| BanOutcomes.FailedMeansRestored | internal/enforcement/enforcer.go:417-427 | Failed: an earlier live ban is back in map and (if the store took it) store; otherwise the target is in neither |
| BanOutcomes.LiveBansNeverShrink | internal/enforcement/enforcer.go:373-383 | A live ban stays and its expiry never decreases under a block request |
| BanOutcomes.LiveBansNeverShrinkRun | internal/enforcement/enforcer.go:373-383 | The same over any run of block requests |
| BanOutcomes.ExtensionEnforcedExactly | internal/enforcement/enforcer.go:497-531 | Whatever the commands report and do: an extension leaves the ban enforced if and only if one of the rules it asked for was really added, or the old rule was left in place and lasts as long as the entry that remains |
| BanOutcomes.BlockEnforcedExactly | internal/enforcement/enforcer.go:326-443 | The same exact condition for every block request, with every outcome |
| BanOutcomes.ShortRuleIsKept | internal/enforcement/firewall.go:41-63 | With commands that take ALREADY_ENABLED for success, an applied ban is enforced if and only if the old rule was really removed or no active rule of the target ends before the ban |
| BanOutcomes.ReblockInGapLosesRule | internal/enforcement/firewall.go:41-54 | The input: a target blocked again on firewalld after its ban ended and before its rule does; no command fails, and when the old rule ends the new ban is live without a rule |
| BanGuards.SkippedExactly | internal/enforcement/enforcer.go:334-375 | A request is skipped if and only if the base of its target is in a range of RFC 1918 (section 3), loopback or link-local, by number, or is 0.0.0.0; or if it is not the operator's and the base has a country that is configured, up to case. It then changes nothing |
| BanGuards.AnsweredExactly | internal/enforcement/enforcer.go:326-443 | The answer to every request from the request, the entry of its target and what the commands report: unreadable fails; a live target asked for at most a minute more is a duplicate; a longer ban extends it; the rest is blocked; applied exactly as the commands report |
| BanGuards.AppliedAsAsked | internal/enforcement/enforcer.go:377-443 | An applied request leaves the module and the time asked for, a hundred years without a length, in the map, and in the store cut to whole seconds; a rule really added outlives the ban by the delay of its command on firewalld, and has no timeout elsewhere |
| BanGuards.WriteAhead | internal/enforcement/enforcer.go:395-401 | Cut off anywhere, a request that asked the firewall for a rule has its ban in the store, unless a failure took it out again |
| BanGuards.PersistedBanReturns | internal/enforcement/enforcer.go:821-958 | From request to restart: a persisted ban is there again, silenced, up to the second; not after its end |
| BanGuards.UnblockAchieves | internal/enforcement/enforcer.go:1079-1119 | After an unblock the target is in neither map and not silenced; a deletion that works leaves no row, a removal that works no rule; everything about every other target is as before. An unreadable text changes nothing |
| BanGuards.ExpireAchieves | internal/enforcement/enforcer.go:191-224 | After an expiry pass every target whose ban is over is in neither map and not silenced, without a row if its deletion worked and, on the backends that need it, without a rule if its removal worked; every other target is as before |
| BanGuards.AbsentOverRuns | internal/enforcement/enforcer.go:326-443 | Over every run, crashes and starts included, a target that is in neither map and not in the store stays so until a request or an import that may block it, and gets no rule but from outside |
| BanGuards.UnblockedStaysUnblocked | internal/enforcement/enforcer.go:1079-1119 | Hence an unblocked target whose deletion worked stays unblocked in every later state, until it is asked for anew: no restart brings it back |
| BanGuards.InternalStaysOut | internal/enforcement/enforcer.go:338-344 | Hence no target with an internal base ever enters the maps or the store, nor, but from outside, the firewall, by any request, restart, reconciliation or crash |
| BanGuards.InternalBlockedOnlyBy | internal/enforcement/enforcer.go:697-760 | Joined with the check on the base: over every run an internal address can be reported blocked only by a network of 1 to 14 bits that holds the first address of an internal range |
| BanIndex.BlockedExactlyWhenCovered | internal/enforcement/enforcer.go:716-760 | An address is reported blocked if and only if some unexpired entry covers it |
| BanIndex.InclusionSurvivesInterleaving | internal/enforcement/enforcer.go:191-202 | In every interleaving of lock sections the network index names only networks of the map |
| BanIndex.AgreementLostExactlyBy | internal/enforcement/enforcer.go:498-505 | Full agreement is lost by exactly one kind of section: writing the entry of a network that is no longer in the map |
| BanIndex.RollbackAfterUnblock | internal/enforcement/enforcer.go:498-505 | Shown for every network: an unblock between an extension and its rollback leaves a live network entry that blocks no address in the index |
| BanRaces.StepKeepsExactly | internal/enforcement/enforcer.go:191-224 | Every lock section and every external call, between whichever operations it stands: silence, rows and rules of the blocked targets survive it, each if and only if its condition holds |
| BanRaces.CleanupExact | internal/enforcement/enforcer.go:204-223 | The clean-up after an expired target, in whatever state it finds the agent: silence is kept if and only if neither the target nor a second name of it is in the map again; rows if and only if it is not or the deletion fails; rules if and only if it is not or none is removed |
| BanRaces.ReblockDuringExpiry | internal/enforcement/enforcer.go:204-223 | The input, on every backend and at every point of the clean-up: a target blocked again keeps its memory entry and loses its silence, and its row and rule as far as the remaining steps take them |
| BanIndex.BlockedExactlyOverRuns | internal/enforcement/enforcer.go:716-760 | In every state of every run, with every target and every kind of start: an address is reported blocked if and only if some unexpired entry covers it |
| BanSilence.UnblockSilenceExact | internal/enforcement/enforcer.go:1079-1119 | Unblocking keeps the others silenced if and only if no other entry is a second name of the same network |
| BanSilence.OperationSilenceExact | internal/enforcement/enforcer.go:191-224 | Every operation keeps everything blocked silenced if and only if it takes no target away while a second name of its network stays blocked |
| BanSilence.SilencedExactlyOverRuns | internal/enforcement/enforcer.go:326-443 | Over every run, crashes and starts included: everything blocked is silenced in every state if and only if no operation does that |
| BanSilence.SingleNamesStaySilenced | internal/enforcement/enforcer.go:326-443 | Hence without explicit `/32` targets everything blocked is silenced in every state of every run |
| BanSilence.TwoNamesLoseSilence | internal/enforcement/enforcer.go:1079-1119 | The input, for every address that may be blocked: blocked under both its names and unblocked under one, the other is live and its network no longer silenced |
| BanSilence.BannedAreDropped | internal/detection/engine.go:379-387 | While everything blocked is silenced the engine drops every event of every banned address |
| BanSilence.BannedAreDroppedOverRuns | internal/detection/engine.go:379-387 | From ban to engine: in every state of every run without second names no event of an address reported blocked is dispatched |
| BanEnforcement.EnforcedExactlyOverRuns | internal/enforcement/enforcer.go:326-443 | Over every run, with crashes, starts and changes of the firewall from outside, whatever the commands report and do: every ban has in every state a rule that ends no earlier, if and only if every event leaves it so (for a block request the condition of `BlockEnforcedExactly`, for a start that of `StartEnforcedExactly`, for a change from outside the rules themselves) |
| BanEnforcement.BlockedImpliesEnforced | internal/enforcement/enforcer.go:326-443 | While that holds every live ban has an active rule |
| BanEnforcement.ReconcileEnforcedExactly | internal/enforcement/enforcer.go:871-927 | One pass from arbitrary rules: afterwards every ban has a rule that lasts as long if and only if it was really re-applied or had one |
| BanEnforcement.PassRepairsExactly | internal/enforcement/enforcer.go:902-922 | A pass whose command for a ban works leaves it backed if and only if it was before or no rule of its addresses was listed: a rule that ends too early is repaired by the first pass behind its end |
| BanEnforcement.StartEnforcedExactly | internal/enforcement/enforcer.go:821-833 | A start, with or without a readable store: the same exact condition for what it loads |
| Bans.RemainingCoversBan | internal/enforcement/enforcer.go:535-541 | `remainingSecs` before the expiry covers the ban and at most a second more; 0 exactly from 50 years on |
| Bans.FallbackTurnsPermanent | internal/enforcement/enforcer.go:523 | The fallback of `extendBan` asks for a permanent rule if and only if 50 years remain or the ban ended a second ago or more |
| Bans.RuleOutlastsBan | internal/enforcement/enforcer.go:484-489 | A rule asked for after the expiry was computed never ends before the ban |
| Bans.ExpiredExact | internal/enforcement/enforcer.go:191-202 | The expiry loop takes exactly the entries past their expiry |
| BanEffects.FreshEffect | internal/enforcement/enforcer.go:386-440 | The whole effect of a fresh block on the five views, success and roll-back |
| BanEffects.ExtendEffect | internal/enforcement/enforcer.go:497-531 | An extension touches only the entry, the row and the rule of its target; on failure the entry is the old one |
| BanEffects.ExpireMaps | internal/enforcement/enforcer.go:191-202 | Expiry removes exactly the expired entries from both maps |
| BanEffects.ReconcileEffect | internal/enforcement/enforcer.go:871-927 | A pass changes exactly the rules of the missing live bans |
| BanEffects.LoadEffect | internal/enforcement/enforcer.go:931-958 | Loading inserts, indexes and silences exactly the active rows |
| BanEffects.RestartEffect | internal/enforcement/enforcer.go:821-833 | After a restart memory holds exactly the active rows and the firewall was reconciled with them |
| Enforcers.Enforcer.BlockIpWithTtl | internal/enforcement/enforcer.go:326-443 | Guards in order, steps, outcome and counter of every request; `BanGuards.AnsweredExactly` and `BanGuards.SkippedExactly` say which, and `BanOutcomes.AppliedMeansBlocked` and `BanOutcomes.FailedMeansRestored` what they achieve |
| Enforcers.Enforcer.BlockFresh | internal/enforcement/enforcer.go:386-440 | Memory, then store, then firewall, then silence; taken back if the firewall fails |
| Enforcers.Enforcer.ExtendBan | internal/enforcement/enforcer.go:497-531 | The extension steps, with restore on failure |
| Enforcers.Enforcer.ExtendRule | internal/enforcement/enforcer.go:511-527 | Replace the firewalld rule, falling back to what is left of the old ban; other backends only add |
| Enforcers.Enforcer.Unblock | internal/enforcement/enforcer.go:1079-1119 | The steps in order for every result of the calls; what they achieve is `BanGuards.UnblockAchieves` |
| Enforcers.Enforcer.UnbanExpired | internal/enforcement/enforcer.go:191-224 | Both loops of the expiry, in any map order |
| Enforcers.Enforcer.TakeExpired | internal/enforcement/enforcer.go:191-202 | The lock section: expired entries leave both maps |
| Enforcers.Enforcer.ReconcileFirewall | internal/enforcement/enforcer.go:871-927 | Snapshot, listing, and re-application of the missing live bans |
| Enforcers.Enforcer.LiveTargets | internal/enforcement/enforcer.go:877-885 | The snapshot: every live ban with what is left of its TTL |
| Enforcers.Enforcer.LoadBansFromStore | internal/enforcement/enforcer.go:931-958 | Every active row not yet known is inserted and silenced |
| Enforcers.Enforcer.LoadBansFromFirewall | internal/enforcement/enforcer.go:963-998 | Fallback: every listed rule becomes a ban of the configured length |
| Enforcers.Enforcer.LoadExistingBans | internal/enforcement/enforcer.go:821-833 | Store first, then reconciliation; the firewall import only when the store cannot be read |
| Enforcers.Enforcer.BlockingNet | internal/enforcement/enforcer.go:745-760 | Some live network that contains the address, none only if there is none |
| Enforcers.Enforcer.GetBlockedIp | internal/enforcement/enforcer.go:729-741 | Finds an entry that blocks the query, by its text or as the network that contains the address it names, with its expiry and module, if and only if there is one |
| Enforcers.Enforcer.IsBlocked | internal/enforcement/enforcer.go:716-724 | True if and only if some live entry has the queried text or some live network contains the address it names |
| Bans.PrintedAddressBlocks | internal/enforcement/enforcer.go:716-760 | For an address as it is printed the lookup by text is the lookup by address |
| Enforcers.Enforcer.SuspendAccount | internal/enforcement/enforcer.go:544-632 | Country veto, de-duplication, suspension, block of the IP and notice: outcomes, state and both counters of every branch |
| Suspensions.SuspendedExactly | internal/enforcement/enforcer.go:544-590 | Skipped if and only if the IP is there, countries can be looked up, and that of its base is configured, up to case; else a duplicate if and only if the account is suspended already; else as the command reports |
| Suspensions.SaslSkippedExactly | internal/enforcement/enforcer.go:544-553 | From the connections to the answer: the suspension asked for by sasl_connections is skipped if and only if the last connection has an IP and every IP among them is from a configured country |
| Suspensions.TravelNeverSkipped | internal/enforcement/enforcer.go:544-553 | From the logins to the answer: a suspension asked for by impossible_traveler is never skipped |
| Enforcers.BanTable.SaveBan | internal/store/store.go:114-124 | Insert or replace; nothing on error |
| Enforcers.BanTable.DeleteBan | internal/store/store.go:127-133 | Deletes the row; nothing on error |
| Enforcers.BanTable.PruneExpiredBans | internal/store/store.go:162-169 | Keeps exactly the rows not yet expired and returns how many went; nothing on error |
| Enforcers.Firewall.Block | internal/enforcement/firewall.go:41-54 | A rule with a timeout only on firewalld and only for a positive TTL; reported success and effect are independent |
| Enforcers.Firewall.ListBlocked | internal/enforcement/firewall.go:65-78 | Lists exactly the active rules |
| Ipv4.NormalizeSound | internal/enforcement/enforcer.go:675-683 | `normalizeTarget` is idempotent and keeps the set of addresses |
| Ipv4.FwKeyIffSameAddresses | internal/enforcement/enforcer.go:856-859 | Two targets have one `fwKey` if and only if they denote the same addresses |
| Ipv4.PrivateCheckSuffices | internal/enforcement/enforcer.go:327-344 | With no prefix, `/0`, or at least 15 bits, a target that passes the private check holds no private, loopback or link-local address |
| Ipv4.PrivateCheckMisses | internal/enforcement/enforcer.go:337-344 | For every prefix length from 1 to 14 a target passes although 169.254.0.0 is in it |
| Ipv4.PassingTouchesExactly | internal/enforcement/enforcer.go:337-344 | Target by target: one that passes touches a private, loopback or link-local range if and only if it covers the range's first address |
| Ipv4.PrivateCheckExact | internal/enforcement/enforcer.go:337-344 | The base-address check is sound for a prefix length if and only if it is 0 or at least 15 |
| TargetText.ParsePrinted | internal/enforcement/enforcer.go:665-671 | A printed target is parsed back as itself |
| TargetText.ValidTargetChars | internal/enforcement/enforcer.go:665-671 | A valid target holds only digits, dots and one slash |
| FirewallRules.ParseFirewallRule | internal/enforcement/firewall.go:99-116 | The first quoted valid target, double quotes before single ones |
| FirewallRules.ListBlockedIps | internal/enforcement/firewall.go:65-78 | The targets of the readable rules, in order |
| FirewallRules.RuleRoundTrip | internal/enforcement/firewall.go:84-116 | A rule printed for a valid target is read back as exactly that text, with either quote |
| FirewallRules.RuleRoundTripTarget | internal/enforcement/firewall.go:84-116 | Hence as the same address or network |
| FirewallRules.ListingRoundTrip | internal/enforcement/firewall.go:65-78 | A listing of printed rules gives back exactly the targets, in order |
| FirewallRules.RuleTargetSound | internal/enforcement/firewall.go:99-116 | What is read from any line is a valid target that stands there in quotes |
| FirewallRules.CommandsBanTheTarget | internal/enforcement/firewall.go:84-94 | Every command built adds a rule that is read back as the target; a permanent one is among them if and only if no positive TTL was given |
| Whitelists.Whitelist.ContainsIp | internal/detection/engine.go:96-119 | True if and only if a built-in, operator or silenced network contains the address |
| Whitelists.Whitelist.IsWhitelisted | internal/detection/engine.go:379-387 | An event is dropped if and only if its address is exempt or its account is listed |
| Whitelists.Whitelist.DoAddAccount | internal/detection/engine.go:196-200 | Adds the account only |
| Whitelists.Whitelist.DoRemoveAccount | internal/detection/engine.go:203-207 | Removes the account only |
| Whitelists.AccountsAreTheOperators | internal/detection/engine.go:379-387 | Which events are dropped for their account depends on the operator's calls only |
| Whitelists.Whitelist.DoSilence | internal/detection/engine.go:143-152 | Adds the network of the target to the silenced set only |
| Whitelists.Whitelist.DoUnsilence | internal/detection/engine.go:156-164 | Removes it from the silenced set only |
| Whitelists.Whitelist.DoAddIp | internal/detection/engine.go:167-176 | Appends to the operator's list |
| Whitelists.Whitelist.DoRemoveIp | internal/detection/engine.go:179-193 | In-place compaction: the list without the entry |
| Whitelists.Whitelist.List | internal/detection/engine.go:211-221 | What the operator configured, in order, nothing silenced |
| Whitelists.RemoveKeepsRest | internal/detection/engine.go:179-193 | Every copy of the entry is gone, everything else is kept in order |
| Whitelists.CallsDoNotInterfere | internal/detection/engine.go:143-221 | In any interleaving the listing depends on the operator's calls only, the silenced set on the silencing calls only |
| Whitelists.UnsilenceFreesOnlyBans | internal/detection/engine.go:156-164 | Unsilencing makes an address dispatchable if and only if that network alone covered it |
| Whitelists.OperatorExemptionSurvives | internal/detection/engine.go:96-119 | What a built-in or operator entry covers stays exempt, and its events dropped, over any interleaving |
| Whitelists.CallsDoForIps | internal/detection/engine.go:143-193 | What each call changes for each address |
| Whitelists.CallsDoForAccounts | internal/detection/engine.go:196-207 | And for each account |
| Whitelists.BuiltinExact | internal/detection/engine.go:33-46 | The built-in networks cover exactly the internal addresses |
| Countries.LoadedListAgrees | internal/config/config.go:308-312 | On a list that went through the loader detectors and enforcer read countries alike |
| Countries.ReadAlikeExactly | internal/detection/impossibletraveler/impossibletraveler.go:51-61 | Any list is read alike by both sides if and only if no entry has blanks around it |
| Countries.VetoExact | internal/enforcement/enforcer.go:1124-1139 | The exemption by country, letter by letter, for the text in front of the first slash |
| Countries.AllowsExact | internal/enforcement/enforcer.go:1124-1139 | Both sides compare letters up to case; the detectors ignore blanks around an entry |
| MailLog.Parser.ParseLine | internal/parser/parser.go:156-187 | State and event of every kind of line |
| MailLog.Parser.ParseSmtpd | internal/parser/parser.go:274-326 | Failures, authentications and recipients |
| MailLog.Parser.ParseQmgr | internal/parser/parser.go:328-372 | Takes the pending authentication, counts and prunes, binds the queue ID |
| MailLog.Parser.ParseDelivery | internal/parser/parser.go:393-439 | Counts and prunes, attributes, follows a re-queueing of a sent message |
| MailLog.Parser.PruneQueues | internal/parser/parser.go:378-391 | Keeps exactly the bindings of the last 10 and 30 minutes |
| MailLog.MapsAreTraced | internal/parser/parser.go:328-439 | Whatever the log: the maps hold only pending and traced authentications |
| MailLog.EventsAreOfTheirLines | internal/parser/parser.go:274-439 | Over every log: which lines give an event, and that it has the time, process and text of its line, the kind of its message and status, the queue ID, IP, account and the rest as the line says, and the domain behind the last @ of its account |
| MailLog.UsernameExact | internal/parser/parser.go:278-292 | The account of a failure is what stands behind the first `sasl_username=` of the reason, up to a blank, comma or semicolon |
| MailLog.PruneForgets | internal/parser/parser.go:378-391 | Behind every 500th queue line nothing is left that was older than 10 or 30 minutes by then |
| MailLog.AttributionIsSound | internal/parser/parser.go:296-439 | Every account on a recipient, queue or delivery event comes from an earlier SASL success at the root of a chain of queue IDs that ends at the event |
| MailLog.AcceptanceIsAttributed | internal/parser/parser.go:328-372 | A qmgr line within 10 minutes finds the latest authentication, whatever interleaves or is pruned |
| MailLog.DeliveriesAttributed | internal/parser/parser.go:393-439 | Every delivery of a bound message within 30 minutes carries the account, through any number of re-queueings, retries and repeated qmgr lines, as long as its queue ID is not bound anew |
| MailLog.AttributionIsComplete | internal/parser/parser.go:296-439 | Both halves together, from the authentication to the k-th delivery |
| MailLog.RecipientsAttributed | internal/parser/parser.go:308-323 | A recipient line within 10 minutes of the authentication carries the account, whatever comes between, until qmgr takes the authentication |
| MailLog.LatestBindingFound | internal/parser/parser.go:328-439 | Over any log in order of time: a delivery under a queue ID whose latest binding is at most 30 minutes old and goes back to a timely acceptance carries its account, as if nothing were ever pruned, whatever other IDs do |
| MailLog.MailFromDoesNotMatter | internal/parser/parser.go:328-372 | Two logs equal but for the MAIL FROM of qmgr lines give the same state, and the same events but for `Extra["from"]` and `Raw` |
| Windows.TrimOld | internal/detection/authfailed/authfailed.go:105-112 | The trimming loop |
| Windows.PruneExpired | internal/detection/authfailed/authfailed.go:95-101 | Drops exactly the keys with nothing left in the window |
| Windows.TrimIsExactFilter | internal/detection/authfailed/authfailed.go:105-112 | On a sorted window trimming the front is the filter by time |
| Windows.WindowsAgree | internal/detection/authfailed/authfailed.go:47-101 | In every reachable state every stored window tells what the untrimmed, unpruned history tells |
| Windows.AlertsAsDefined | internal/detection/authfailed/authfailed.go:47-101 | With times in order an event alerts if and only if the full-history definition says so |
| Windows.StoredBelowThreshold | internal/detection/authfailed/authfailed.go:66-72 | No stored window is ever at the threshold |
| Feeds.AlertsInWindow | internal/detection/authfailed/authfailed.go:47-91 | An event alerts if and only if what came in its window since the last alert of its key is over the threshold; the alerts are made from just that |
| Windows.PruneForgets | internal/detection/authfailed/authfailed.go:95-101 | Behind every 5000th event every stored window has a record that was recent by then |
| AuthFailedDetector.Module.Handle | internal/detection/authfailed/authfailed.go:47-91 | State and alerts of every event |
| AuthFailedDetector.FiresAtThreshold | internal/detection/authfailed/authfailed.go:47-112 | Alerts exactly when the failures in the window since the last alert first equal the threshold |
| AuthFailedDetector.AlertsExactly | internal/detection/authfailed/authfailed.go:47-91 | Over all events: one alerts if and only if it is a failure with an IP, and the failures of that IP in the window since its last alert make with it exactly the threshold |
| LogAlerts.AlertsOnLines | internal/detection/authfailed/authfailed.go:47-91 | From the log lines to the alert: after any log in order of time a line alerts if and only if it reports a failed authentication of an IP, and with the lines that report one of that IP in the window since its last alert it makes exactly the threshold |
| DistBruteDetector.Module.Handle | internal/detection/distbrute/distbrute.go:55-97 | State and alerts of every event |
| DistBruteDetector.UniqueIps | internal/detection/distbrute/distbrute.go:107-117 | The different IPs in order of first appearance |
| DistBruteDetector.UniqueCounts | internal/detection/distbrute/distbrute.go:107-117 | Each once: their number is the number of different IPs |
| DistBruteDetector.FiresAtThreshold | internal/detection/distbrute/distbrute.go:55-125 | Alerts exactly when the number of different IPs since the last alert first equals the threshold |
| DistBruteDetector.AlertsExactly | internal/detection/distbrute/distbrute.go:55-97 | Over all events: one alerts if and only if it is a failure with IP and account, and the different IPs of that account in the window since its last alert are with its own exactly the threshold |
| DomainDiscovery.Module.Handle | internal/detection/domaindiscovery/domaindiscovery.go:63-118 | State and alerts of every event |
| DomainDiscovery.Module.PruneExpired | internal/detection/domaindiscovery/domaindiscovery.go:121-127 | Drops exactly the windows that are over |
| DomainDiscovery.PruningInvisible | internal/detection/domaindiscovery/domaindiscovery.go:63-127 | What is held of an IP is its full-history tumbling window, unless that one is over |
| DomainDiscovery.AlertsAsDefined | internal/detection/domaindiscovery/domaindiscovery.go:63-127 | Alerts exactly when the full-history window first reaches the threshold of different domains |
| DomainDiscovery.AlertsExactly | internal/detection/domaindiscovery/domaindiscovery.go:63-118 | Over all events: one alerts if and only if it is a failure with an IP and a domain, and the different domains of that IP since its window began are exactly the threshold; a window begins with the first attempt, behind an alert, or when the one before is over |
| DomainDiscovery.PruneForgets | internal/detection/domaindiscovery/domaindiscovery.go:121-127 | Behind every 5000th attempt no window is left that was over by then |
| SaslDetector.Module.Handle | internal/detection/saslconnections/saslconnections.go:75-160 | State and alerts of every event, both rules |
| SaslDetector.Module.PickTarget | internal/detection/saslconnections/saslconnections.go:175-185 | The first IP of a country that is not allowed, else the fallback |
| SaslDetector.UniqueIps | internal/detection/saslconnections/saslconnections.go:209-221 | The different non-empty IPs in order of first appearance |
| SaslDetector.TargetExact | internal/detection/saslconnections/saslconnections.go:175-185 | The first IP that is not from an allowed country; the fallback if and only if there is none, or no list or lookup |
| SaslDetector.AlertsExactly | internal/detection/saslconnections/saslconnections.go:75-160 | Over all events: one alerts if and only if it is a success that is not of a mailbox protocol, and with those of its account in the window since the last alert there are too many different IPs or too many connections |
| SaslDetector.AlertsListed | internal/detection/saslconnections/saslconnections.go:98-156 | The alerts are the suspension and, with too many IPs, a block of each different one, once, in order of first appearance |
| SaslDetector.SuspensionVetoExact | internal/detection/saslconnections/saslconnections.go:92-197 | With a loaded list the enforcer skips the suspension if and only if the event has an IP and every IP of the window is from an allowed country |
| AccountTakeover.Module.Handle | internal/detection/accounttakeover/accounttakeover.go:70-88 | State of every event; at most one alert, which reports an IP that reached the minimum, of maximal count for accepted messages |
| AccountTakeover.Module.RecordFailure | internal/detection/accounttakeover/accounttakeover.go:91-104 | The failure is inserted into the trimmed window at its place |
| AccountTakeover.Module.CheckPattern1 | internal/detection/accounttakeover/accounttakeover.go:108-149 | A success alerts if and only if its own IP reached the minimum |
| AccountTakeover.Module.CheckPattern2 | internal/detection/accounttakeover/accounttakeover.go:153-205 | A message alerts if and only if some IP reached the minimum; the reported IP has the maximal count |
| AccountTakeover.Module.PruneExpired | internal/detection/accounttakeover/accounttakeover.go:207-215 | Every window trimmed, empty ones dropped |
| AccountTakeover.AppendSorted | internal/detection/accounttakeover/accounttakeover.go:91-104 | Append and swaps in place are the insertion |
| AccountTakeover.DominantIp | internal/detection/accounttakeover/accounttakeover.go:227-241 | An IP of maximal count, in whatever order the map is visited |
| AccountTakeover.InsertKeeps | internal/detection/accounttakeover/accounttakeover.go:91-104 | For any arrival time the window stays sorted and holds the old failures and the new one, each once |
| AccountTakeover.RunsWellKept | internal/detection/accounttakeover/accounttakeover.go:70-104 | After any run, in any order of times, every window is sorted |
| AccountTakeover.MessageAlertsExactly | internal/detection/accounttakeover/accounttakeover.go:153-205 | After any run a message alerts if and only if some IP has at least the minimum of kept failures not before the cutoff |
| AccountTakeover.PruningInvisible | internal/detection/accounttakeover/accounttakeover.go:70-88 | With times in order pruning never changes an alert |
| AccountTakeover.AlertsAsDefined | internal/detection/accounttakeover/accounttakeover.go:70-205 | With times in order an event alerts if and only if the untrimmed history says so: enough failures in the window since the account was last cleared, of its own IP for a success, of some IP for a message |
| AccountTakeover.CountExact | internal/detection/accounttakeover/accounttakeover.go:227-241 | The count of an IP is the number of its failures |
| AccountTakeover.PruneForgets | internal/detection/accounttakeover/accounttakeover.go:207-215 | Behind every 5000th event no failure is left that was outside the window by then |
| ImpossibleTraveler.Module.Handle | internal/detection/impossibletraveler/impossibletraveler.go:158-306 | State and alerts of every event |
| ImpossibleTraveler.Module.Raise | internal/detection/impossibletraveler/impossibletraveler.go:239-303 | The attackers loop and the alerts built from it |
| ImpossibleTraveler.Module.PruneStale | internal/detection/impossibletraveler/impossibletraveler.go:311-318 | Drops exactly the logins older than a day |
| ImpossibleTraveler.RunRemembers | internal/detection/impossibletraveler/impossibletraveler.go:158-228 | What is remembered of an account is its last login, back-dated by a window if it alerted; what is forgotten is stale |
| ImpossibleTraveler.NeverTwiceInARow | internal/detection/impossibletraveler/impossibletraveler.go:217-228 | Two consecutive considered logins of an account never both alert |
| ImpossibleTraveler.AlertsAreTravels | internal/detection/impossibletraveler/impossibletraveler.go:183-228 | Every alert compares two real consecutive logins of the account (successes from known countries, no trusted proxy) whose IPs look up to different countries, of which at most one is allowed, with less than the window between them |
| ImpossibleTraveler.AlertsExactly | internal/detection/impossibletraveler/impossibletraveler.go:158-228 | For every window: an event alerts if and only if it is a login, the last one is still remembered and did not alert, and the two are such a pair |
| ImpossibleTraveler.PruneForgets | internal/detection/impossibletraveler/impossibletraveler.go:311-318 | Behind every 5000th success no other login is left that was older than a day by then |
| ImpossibleTraveler.AlertsAsDefined | internal/detection/impossibletraveler/impossibletraveler.go:158-318 | For windows of a day at most an event alerts if and only if it and the last login are such a pair, and that login did not alert itself: pruning never changes an alert |
| ImpossibleTraveler.LongWindowsLoseAlerts | internal/detection/impossibletraveler/impossibletraveler.go:88-102 | The bound is exact: for every longer window, and any two places that alert, a run exists on which pruning loses the alert |
| ImpossibleTraveler.AlertedIps | internal/detection/impossibletraveler/impossibletraveler.go:239-303 | The alerts name exactly the IPs of the pair from countries not allowed, suspension first; without a list the current one |
| ImpossibleTraveler.NeverVetoed | internal/detection/impossibletraveler/impossibletraveler.go:239-303 | With a loaded list and one lookup that knows addresses only the enforcer skips neither the suspension nor a block, for any events in any order |
| Watchers.Watcher.DrainLines | internal/watcher/watcher.go:160-203 | Feeds the trimmed, non-blank complete lines behind the cursor, in order, and leaves the cursor just past the last newline, whatever sizes the reads have; on a failed read, the lines of what was read |
| Watchers.Watcher.ReadString | internal/watcher/watcher.go:167-171 | The next line, reading on while it is incomplete |
| Watchers.Watcher.Feed | internal/watcher/watcher.go:184-201 | One line: trim, skip blank, parse, name, offer; a full channel drops |
| Watchers.OfferedExactly | internal/watcher/watcher.go:184-201 | What is offered are the readings of the recognised lines, one each, in order, with their events, named after the server if it has a name |
| Watchers.DeliveredExactly | internal/watcher/watcher.go:192-201 | The channel takes what it is offered while it has room, in order |
| Watchers.LinesAreTheText | internal/watcher/watcher.go:154-203 | The complete lines, joined, are the text up to its last newline, each ending in its only newline |
| Watchers.DrainTwice | internal/watcher/watcher.go:160-203 | Two drains in a row are one drain of both appends |
| Watchers.ChunkingIndependent | internal/watcher/watcher.go:154-203 | For every split into appends with a drain after each: same lines in the same order, once each, and same cursor as one append of everything |
| Watchers.FailedReadTearsLine | internal/watcher/watcher.go:179-182 | After a failed read nothing is torn if and only if reading stopped at a line end or no newline follows |
| Forwarders.EventStore.SaveEvent | internal/store/store.go:227-238 | Inserts unsynced under the next id; nothing on error |
| Forwarders.EventStore.LoadUnsynced | internal/store/store.go:242-269 | The oldest unsynced entries, up to the limit |
| Forwarders.EventStore.MarkSynced | internal/store/store.go:273-296 | All of the ids or, on any failure, none |
| Forwarders.EventStore.PruneEvents | internal/store/store.go:302-338 | Deletes exactly the old enough rows, only synced ones unless all may go |
| Forwarders.Forwarder.SyncBatch | internal/forwarder/forwarder.go:174-251 | Load, send, mark: the new table and what the controller took, for any failure and any alerts saved meanwhile |
| Forwarders.Forwarder.PruneOnce | internal/forwarder/forwarder.go:157-170 | Connected: synced rows older than a day; standalone: all rows older than the retention |
| Forwarders.FirstAcceptancesInOrder | internal/forwarder/forwarder.go:174-251 | Over every connected run the first acceptances are exactly the oldest saved entries, in strictly increasing id order, even when marking fails, answers are lost or alerts are saved mid-batch |
| Forwarders.DeletedOnlyAfterAcceptance | internal/forwarder/forwarder.go:157-251 | Every saved entry is in the table or was taken by the controller; a synced one was taken |
| Forwarders.SavedAreTheAlerts | internal/store/store.go:227-238 | Over every run in either mode the saved entries are the alerts of the saves that worked, in order, numbered from 1, each with its time cut to whole seconds; every row is of one of them and of its time |
| Forwarders.PrunesExactly | internal/forwarder/forwarder.go:157-170 | A pruning deletes exactly, connected, the synced rows that are a day old or older; alone, all rows that reached the retention |
| Forwarders.MarksOnlyAccepted | internal/forwarder/forwarder.go:226-246 | Nothing is marked unless the answer was an acceptance |
| Forwarders.SyncedBelowUnsynced | internal/store/store.go:242-338 | Every synced id is below every unsynced id |
| Forwarders.DrainsInCeilRounds | internal/forwarder/forwarder.go:174-251 | n pending entries are drained after ceil(n / BatchSize) successful rounds and no earlier, each sent once, in order |
| Forwarders.MarkKeeps | internal/store/store.go:273-296 | Marking a batch leaves exactly the others pending |
| Throttle.ThrottledNotifier.Notify | internal/notify/throttle.go:76-146 | Outcome and state of every call |
| Throttle.ThrottledNotifier.Admit | internal/notify/throttle.go:80-116 | The first lock section: both checks, window roll |
| Throttle.ThrottledNotifier.Record | internal/notify/throttle.go:122-144 | The second: consumption and pruning |
| Throttle.KeyTellsApart | internal/notify/throttle.go:65-70 | For every IP and account text: two alerts share a cooldown if and only if they agree in action and in IP and account (or module, without both), or a separator inside an IP makes the two pairs run together |
| Throttle.CoolingExactly | internal/notify/throttle.go:82-96 | The cooldown suppresses a call if and only if an alert of its key was delivered less than a cooldown ago |
| Throttle.DecidedExactly | internal/notify/throttle.go:76-146 | Every call, from the calls before it alone: suppressed if and only if its key was delivered less than a cooldown ago; else held back if and only if it opens no window and the current one has delivered its limit; else delivered if and only if the send works |
| Throttle.PruneForgets | internal/notify/throttle.go:131-143 | When keys are pruned none is left whose cooldown was over |
| Throttle.DeliveriesSpaced | internal/notify/throttle.go:82-129 | Deliveries with one key are at least `KeyCooldown` apart |
| Throttle.AtMostTwiceTheLimit | internal/notify/throttle.go:98-126 | Any interval as long as `Window` holds at most 2 * `MaxPerWindow` deliveries |
| Throttle.TwiceIsReached | internal/notify/throttle.go:98-126 | The bound is reached, under every cooldown, for every limit and every window of two nanoseconds or more |
| Throttle.PruningInvisible | internal/notify/throttle.go:131-143 | With and without pruning the same calls deliver |
| Throttle.DecidedAsUnpruned | internal/notify/throttle.go:131-143 | Pruning changes no decision |
| Throttle.FailedSendLeavesNoTrace | internal/notify/throttle.go:118-120 | Over whole runs a failed send consumes neither limit: unless it had to open a new window, every later state and delivery is as if it had not been made |
| Throttle.FailedSendTracelessExactly | internal/notify/throttle.go:98-120 | Exactly: what later calls deliver is the same with and without the failed one, whatever they are, if and only if it did not open a window in which a later call can start |
| Throttle.FailedSendShiftsWindows | internal/notify/throttle.go:98-120 | The input: after a failed send that opened such a window there are calls of which one more is delivered than without it |

## Left out

- IPv6 and IPv4-mapped addresses: targets are dotted quads with an optional prefix.
- The regular expressions of the parser and the inference of years and time zones: lines arrive classified, with a time (the user name inside the reason of a failure is extracted by the model). `ParseMailboxLine` keeps no state and is not modelled.
- Running commands (`firewall-cmd`, `ufw`, `ipset`, `zmprov`, `sendmail`), their text output other than rich rules, and their time limits: a command reports success or not and has an effect or not, independently. `parseUFWStatus` is not modelled.
- SQL: tables are maps and sequences with atomic statements; a commit that fails after taking effect is not modelled. Saved events keep their text: the JSON of alert metadata, and its corruption, are not modelled.
- GeoIP, AbuseIPDB and organisation lookups: one fixed function from IP to country, and one predicate for trusted proxies.
- Machine integers: TTLs and durations do not overflow, and seconds are not rounded through floating point.
- Case folding and trimming of country codes are those of ASCII.
- The HTTP API, the control program, reports, configuration apart from the country list, and the text of notifications: plumbing. The handling of alerts below the enforcer (`handle`, `Unsuspend`, `Stats`) is not modelled either.
- Optional collaborators: store and whitelist are always configured in the model of the enforcer.
- `fsnotify` events, rotation and reopening of the log. A drain sees the file as it is when its last read finds the end.
- The detectors bouncerate, numbermessages, queuemonitor, rcptflood and passwordspray have the window shapes of the ones modelled.
- That no firewall rule and no silence entry outlives its ban: the code does not keep it (failed removals are ignored, a restart keeps the rules of bans that ended).
- BanSafety.RunsAreSafe: operations are serialised between events; `BanIndex.InclusionSurvivesInterleaving`, `BanIndex.AgreementLostExactlyBy` and `BanRaces.StepKeepsExactly` say what interleaving keeps and loses. A start at which the store cannot be read voids all promises: memory then holds only what the firewall lists, and a later request may replace a row by a shorter one.
- BanEnforcement.EnforcedExactlyOverRuns: says when the relation is never broken; once it is, `BanEnforcement.ReconcileEnforcedExactly` says when a pass restores it.
- MailLog.LatestBindingFound: an acceptance later than 10 minutes after its authentication may or may not be attributed, depending on when the maps were last pruned; so may what is re-queued from it.
- Suspensions.SaslSkippedExactly: for IP texts without a slash, as `SaslDetector.SuspensionVetoExact`.
- Suspensions.TravelNeverSkipped: for a country lookup that knows addresses only, as `ImpossibleTraveler.NeverVetoed`.
- SaslDetector.SuspensionVetoExact: for IP texts without a slash, as the SASL lines of the main log carry them.
- BanSafety.CrashConsistency: a crash is between two steps, not inside a statement of the store or a firewall command.
- Forwarders.FirstAcceptancesInOrder: the connected mode only; in standalone mode nothing is ever sent and old events are deleted unsent.
- Throttle.AtMostTwiceTheLimit: calls are sequential; concurrent sends may pass the check together.
- Reads of the enforcer's lists, the counters per domain of the engine, and its dispatch loop: they read state that is modelled, and change none of it.
