# sipreaper, modelled and verified in Dafny

sipreaper turns SIP traffic into firewall bans. This project models its stateful parts and proves what they keep over
whole runs. `dafny verify dfyconfig.toml` checks everything.

How the model is laid out:

- **Value-level steps.** Every operation is a function on plain values (`Lifecycle.Step`, `SlidingWindows.Step`, ...).
  Runs are folds of steps, and the main results are lemmas about all runs.
- **Objects.** Everything the program updates in place is a class with those fields (`Backends.Kernel`,
  `BanStore.Store`, `Daemon.Daemon`, `SlidingWindows.SlidingWindow`, ...). Each method is proved to carry out the step,
  with the program's own loops and their invariants. The table lists the methods with loops; handlers without one
  (threats, manual bans and un-bans, whitelist removal, detach) are proved against their steps in the same way.

What the parts model:

- **Addresses** (`Addresses.dfy`): `net.IP` as bytes, shortest forms, the map keys, prefixes, whitelist entry texts. An
  address's text is identified with its shortest form.
- **Backends** (`Backends.dfy`, `XdpFilter.dfy`): the iptables chain (a sequence of rules, duplicates included), the two
  XDP maps, the composite fan-out, and the XDP program over raw frame bytes. Failures are inputs: `Faults` lists, per
  step, the addresses whose iptables check, iptables edit or map update errors, and whether listing the maps errors.
  iptables refuses IPv6 by itself.
- **Ban lifecycle** (`BanStore.dfy`, `Lifecycle.dfy`, `LifecycleInvariant.dfy`, `LifecycleTheorems.dfy`,
  `Escalation.dfy`, `Decisions.dfy`, `RoundTrips.dfy`, `Modes.dfy`, `Daemon.dfy`, `Api.dfy`): bans table, whitelist,
  chain, maps and the enforcer in use, under threats, manual bans and un-bans, whitelist changes, expiry, reconcile, the
  kill switch, restarts, static reloads and local-address refreshes. `Decisions.dfy` and `RoundTrips.dfy` say what each
  call does in terms of the tables alone, `Modes.dfy` which backend a step can touch. Each handler is one atomic step
  that carries its own clock reading.
- **End to end** (`EndToEnd.dfy`): the lifecycle's runs and the XDP program together, from bans table to packet verdict.
- **Bounded caches** (`BoundedWindow.dfy`, `Selections.dfy`, `SlidingWindow.dfy`, `Detectors.dfy`,
  `FailedCallRatio.dfy`, `Dedup.dfy`, `Pcap.dfy`): trimmed, capped, swept or evicted state against the full history.
  The clock never runs backwards.
- **Text** (`LogTailer.dfy`, `SipParser.dfy`, `SipRoundTrip.dfy`): line reassembly from arbitrary reads, and SIP header
  parsing, checked against a writer of SIP messages.

## The drift ledger

No function of the program establishes that rows, chain, maps and whitelist agree, and under failures they do not.
`LifecycleInvariant` therefore carries a ledger of four address sets: where the chain may differ from the rows, where
the maps may lack a row's address, where they may hold one without a row, and where a current row may be whitelisted.
`DriftStep` says what each step adds and what reconcile and restart repair; the invariant is exact agreement at every
address outside the ledger. With no failures the ledger still grows in these cases. Each has the exact
condition on what precedes the step under which everything still agrees, and a concrete case where it does not:

- A manual ban of an IPv6 address beside iptables: XDP takes it, iptables refuses, the row is ended, the map entry stays
  until the next reconcile (`ManualBanAgreesIffIPv4`, `FreshIPv6BanLeavesMapEntry`).
- A reloaded static whitelist, or a new local address, that covers a current row: nothing clears it
  (`ReloadStaticDisjointIff`, `ReloadStaticCanCoverARow`; `RefreshLocalDisjointIff`, `RefreshLocalCanCoverARow`).
- A bare IPv4-mapped whitelist entry in colon form (`::ffff:1.2.3.4`): it becomes `::/32`, which does not cover the
  address and covers IPv6 rows nobody cleared (`BareEntryCovers`, `MappedEntryDisjointIff`, `MappedEntryCanCoverARow`).
- A restart ends the rows its whitelist covers and leaves their rules on the chain (`RestartChainAgreesIff`,
  `RestartCanLeaveARule`).

Where documentation and code disagree the code is followed: `docs/plans/xdp-enforcer.md` promises that a whitelisted
address is never in the drop map, and in the second and third case it is until the next reconcile; `README.md:422`
promises that whitelisting a banned address is refused or clears the ban, which the third case escapes. Reconcile
compares texts, which is comparing keys only while no IPv6 map key is IPv4-mapped (`ReconcileComparesKeysIff`,
`MappedKeySurvives`); the program itself never writes such a key.

## Model

| member | source | states |
|---|---|---|
| Addresses.KeysRouteEachAddressOnce | internal/banner/keys.go:14-36 | the two key functions route every address to exactly one family, lose nothing, and give the same key after printing and parsing |
| Addresses.ContainsIffPrefixBitsAgree | internal/whitelist/whitelist.go:51-60 | a whitelist prefix covers exactly the addresses of its family that agree on its leading bits (section 3.1 of RFC 4632); in IPv4-mapped colon form, the IPv4 addresses that agree on its bits from the 96th on |
| Addresses.BareEntryCovers | internal/whitelist/whitelist.go:109-123 | a bare entry covers exactly the address it names, except IPv4-mapped colon form, which covers `::/32` instead |
| Addresses.CidrEntryCovers | internal/whitelist/whitelist.go:109-123 | a CIDR entry covers exactly the addresses of its family that agree with the typed one on its leading bits; in IPv4-mapped colon form, as IPv4 from a prefix of 96 on and as IPv6 below |
| Backends.UnbanRemovesDuplicates | internal/action/iptables.go:54-70 | with faithful commands every duplicate goes up to the limit, nothing else moves, and success means fewer than 10 000 |
| Backends.SuccessMeansDone | internal/action/iptables.go:41-70 | an edit that succeeds has done its work on every backend edited; one that fails on a single backend leaves it as it was, but for an un-ban at its limit |
| Backends.ChainUnderFailures | internal/action/iptables.go:41-70 | a ban duplicates a rule iff its check errors and its append does not; an un-ban leaves one iff the check or delete errors or there are more than the limit |
| Backends.CompositeMembersAreIndependent | internal/action/composite.go:40-58 | in every run and under any failures each member ends where it would alone; an edit succeeds iff both members' do |
| Backends.IptablesRunRefinesSet | internal/action/iptables.go:41-70 | from a duplicate-free chain every faithful run holds exactly one rule per address last banned, and no edit fails |
| Backends.XdpRunRefinesSet | internal/banner/enforcer_linux.go:206-255 | in every run a key is in its map iff the last edit of it that succeeded was a ban |
| Backends.Kernel.IptablesBanOne | internal/action/iptables.go:41-52 | check, then append |
| Backends.Kernel.IptablesUnbanOne | internal/action/iptables.go:54-70 | the bounded check-delete loop leaves the specified chain and answer, failures included |
| Backends.Kernel.XdpBanOne | internal/banner/enforcer_linux.go:206-230 | insertion into the family map, or an error that changes nothing |
| Backends.Kernel.XdpUnbanOne | internal/banner/enforcer_linux.go:232-255 | removal from the family map, absent keys included |
| Backends.Kernel.List | internal/banner/enforcer_linux.go:260-286 | the texts listed are exactly those of the keys of both maps; nothing is listed when the iteration errors |
| Backends.Kernel.BanWith | internal/action/composite.go:40-48 | every member is tried, whatever the others answered |
| Backends.Kernel.UnbanWith | internal/action/composite.go:50-58 | every member is tried, whatever the others answered |
| XdpFilter.Program.XdpBanFunc | internal/banner/bpf/xdp_ban.c:106-160 | drops exactly frames that carry a mapped source behind at most two tags; counts each frame once unless a bounds check ended it; no read out of bounds |
| XdpFilter.Program.Stats | internal/banner/enforcer_linux.go:313-331 | the scrape adds up the per-CPU counters, passed first; a lookup that errors ends it |
| XdpFilter.CarriesOnce | internal/banner/bpf/xdp_ban.c:123-151 | a frame has at most one reading as tags and an IP header |
| XdpFilter.BuiltFrameVerdict | internal/banner/bpf/xdp_ban.c:106-160 | a frame built from tags and a complete header is dropped iff there are at most two tags and its source is in the map |
| XdpFilter.VerdictFollowsLastEdit | internal/banner/enforcer_linux.go:206-255 | from any pinned maps, dropped iff the source of a readable frame was banned by the last edit of it XDP accepted (or was there and none was accepted), alone or in the composite |
| EndToEnd.VerdictFollowsRows | internal/daemon/daemon.go:749-873 | after any run, under any failures, a readable frame whose source is outside the ledger is dropped iff its source has a current row |
| EndToEnd.QuietVerdictFollowsRows | internal/banner/bpf/xdp_ban.c:106-160 | in every quiet composite run that ends attached, a frame is dropped iff it carries the source of a current row, and never when that source is whitelisted |
| BanStore.FindLive | internal/store/store.go:193-219 | finds a live row of the address iff there is one |
| BanStore.DueIds | internal/store/store.go:234-247 | exactly the live rows whose end has come, each once |
| BanStore.InsideIds | internal/api/handlers.go:330-341 | exactly the listed rows inside a prefix |
| BanStore.InsideIdsDistinct | internal/api/handlers.go:330-341 | each of them once |
| BanStore.CurrentIdsComplete | internal/store/store.go:189-191 | no row in force is missing from the enforced listing |
| BanStore.Store.CreateBan | internal/store/store.go:92-109 | appends the row under the next id |
| BanStore.Store.AddWhitelist | internal/store/store.go:318-338 | appends the entry unless its text is already there |
| Lifecycle.WantFromIds | internal/daemon/daemon.go:555-562 | the wanted set built from the listing is that of all current, not whitelisted rows |
| Decisions.ThreatIsRecorded | internal/decision/engine.go:38-106 | a threat from a whitelisted address or one with a live row changes nothing; any other is recorded in exactly one row, with the count, duration, end and status its history and the configuration give |
| Decisions.ThreatIsEnforced | internal/daemon/daemon.go:749-767 | outside dry-run the address is then on every backend in use that does not fail, and no other address changes |
| Decisions.CountSinceIsCardinality | internal/store/store.go:226-233 | the prior count is the number of rows of the address since the cooldown began, ended or not |
| LifecycleInvariant.RecordAndBan | internal/daemon/daemon.go:758-767 | recording a row and banning keeps the invariant; only iptables and IPv6 can fail without a fault |
| LifecycleInvariant.ReleaseKeeps | internal/api/handlers.go:277-286 | un-ban then mark keeps the invariant, failed or not |
| LifecycleInvariant.ExpireKeeps | internal/daemon/daemon.go:813-822 | mark then un-ban keeps the invariant: un-banning one expired row is safe because it was the only live one |
| LifecycleInvariant.ClearLoopKeeps | internal/api/handlers.go:272-287 | the clearing loop keeps the invariant wherever an enforcer error stops it |
| LifecycleInvariant.ClearLoopRows | internal/api/handlers.go:272-287 | it only ends rows, none but the visited, and all of those when it completes |
| LifecycleInvariant.CoveredRowIsFound | internal/api/handlers.go:317-342 | every current row a new entry covers is found; the bare path needs one live row per address |
| LifecycleInvariant.AddWhitelistKeeps | internal/api/handlers.go:243-301 | adding an entry keeps the invariant in all its outcomes |
| LifecycleInvariant.ReconcileEffect | internal/daemon/daemon.go:545-577 | after reconcile a key is left iff it was there and is needed by a current, not whitelisted row, or its delete failed, or the maps could not be listed |
| LifecycleInvariant.RestoreRows | internal/daemon/daemon.go:855-868 | restore ends exactly the current whitelisted rows |
| LifecycleInvariant.RestoreBackends | internal/daemon/daemon.go:855-873 | restore puts every other current address on the backends in use and takes nothing off |
| LifecycleTheorems.StartRepairs | internal/daemon/daemon.go:220-226 | from any table and any well-formed pinned maps, startup ends with the maps equal to the remaining rows, none whitelisted, where map operations succeed |
| LifecycleTheorems.StepKeepsInv | internal/daemon/daemon.go:749-873 | every step keeps agreement outside the ledger |
| LifecycleTheorems.RunKeepsInv | internal/daemon/daemon.go:749-873 | so does every run, under any failures, detaches, restarts and reloads |
| LifecycleTheorems.QuietRunStaysInAgreement | internal/decision/engine.go:38-106 | in every quiet composite run each address has at most one live row, chain and maps equal the current rows, and none is whitelisted |
| LifecycleTheorems.FreshStartAgrees | internal/daemon/daemon.go:57-100 | a fresh installation starts in agreement |
| LifecycleTheorems.RestartResynchronises | internal/daemon/daemon.go:630-645 | after any run, detach included, a restart makes the maps equal the remaining rows |
| LifecycleTheorems.ManualBanAgreesIffIPv4 | internal/api/handlers.go:176-187 | beside iptables a manual ban succeeds, and leaves rows and maps agreeing, iff the address is IPv4 |
| LifecycleTheorems.FreshIPv6BanLeavesMapEntry | internal/api/handlers.go:181-187 | the refused IPv6 ban leaves a map entry without a row |
| LifecycleTheorems.ReloadStaticDisjointIff | internal/daemon/daemon.go:347-358 | while no current row is whitelisted, a static reload keeps it so iff the new list covers no current row |
| LifecycleTheorems.RefreshLocalDisjointIff | internal/localaddr/localaddr.go:25-45 | while no current row is whitelisted, new local addresses keep it so iff none of them has a current row |
| LifecycleTheorems.RefreshLocalCanCoverARow | internal/whitelist/whitelist.go:47-49 | a concrete refresh that whitelists a banned address |
| LifecycleTheorems.RestartChainAgreesIff | internal/daemon/daemon.go:855-873 | while the chain matches the rows, a restart keeps it so iff its whitelist covers no current IPv4 row |
| LifecycleTheorems.RestartCanLeaveARule | internal/daemon/daemon.go:861-867 | a concrete restart that ends a row and leaves its rule |
| LifecycleTheorems.ReloadStaticCanCoverARow | internal/whitelist/whitelist.go:64-74 | a concrete reload that whitelists a banned address |
| LifecycleTheorems.WhitelistAddClears | internal/api/handlers.go:260-300 | after a successful addition no current row inside the entry is left, whatever drifted before, and no rule or key where none had drifted; for CIDRs, dotted quads and plain IPv6 |
| LifecycleTheorems.CoveredIff | internal/api/handlers.go:317-342 | bans are found iff a row is covered: current rows inside a CIDR, live rows of a bare address |
| LifecycleTheorems.WhitelistAddRefusals | internal/api/handlers.go:253-271 | 409 iff a row is covered and `clear_ban` is not set, 400 iff the text does not parse; either changes nothing |
| LifecycleTheorems.EntryWhitelists | internal/whitelist/whitelist.go:76-95 | an added entry whitelists exactly what it covers, beside what was whitelisted |
| LifecycleTheorems.MappedEntryDisjointIff | internal/whitelist/whitelist.go:109-123 | a bare IPv4-mapped entry keeps whitelist and rows apart iff no current row lies in `::/32`, and does not whitelist the address it names |
| LifecycleTheorems.MappedEntryCanCoverARow | internal/api/handlers.go:317-324 | a concrete state where it does not |
| LifecycleTheorems.BarePathNeedsOneLiveRow | internal/api/handlers.go:318-324 | with two live rows of one address the bare path leaves one |
| LifecycleTheorems.ReconcileBounds | internal/daemon/daemon.go:555-577 | under any delete failures reconcile removes only unneeded keys, all of them where deletes succeed, and is idempotent |
| Modes.KillSwitchMeans | internal/daemon/daemon.go:630-645 | the kill switch leaves the daemon detached on iptables and changes nothing else |
| Modes.KillSwitchFreezesMaps | internal/daemon/daemon.go:630-645 | until the next restart the maps then stay as they were, and the chain follows the rows outside the ledger |
| Modes.StepLeavesOther | internal/daemon/daemon.go:533-537 | on iptables alone no step touches the maps; standalone on XDP none touches the chain |
| Modes.StandaloneLeavesChain | internal/daemon/daemon.go:533-537 | nor does any run between restarts and kill switches |
| LifecycleTheorems.ReconcileComparesKeysIff | internal/daemon/daemon.go:555-577 | comparing texts keeps exactly the keys of current, not whitelisted rows iff no IPv6 key is IPv4-mapped |
| LifecycleTheorems.ReconcileCompleteIffNoMappedKey | internal/daemon/daemon.go:569-577 | every key left has a wanted text iff no IPv4-mapped IPv6 key had an unwanted one |
| LifecycleTheorems.MappedKeySurvives | internal/daemon/daemon.go:569-577 | a concrete map whose key no reconcile removes |
| Escalation.StepExtends | internal/store/store.go:221-224 | every step only adds rows or ends them |
| Escalation.RunExtends | internal/store/store.go:221-224 | over a run every row keeps what it recorded and, once ended, stays ended |
| Escalation.LiveIntervalsNeverOverlap | internal/decision/engine.go:49-57 | whenever a later row of an address exists the earlier one has ended, then and ever after |
| Escalation.TickEndsExactlyDueRows | internal/daemon/daemon.go:808-822 | the tick ends exactly the due rows and never a permanent one |
| Escalation.TickTouchesOnlyEnded | internal/daemon/daemon.go:813-822 | the tick takes an address off the backends only when an active or manual row of it is due; dry-run rows end without touching them |
| Escalation.RunKeepsAccounts | internal/decision/engine.go:59-92 | in every run each row's end follows from its duration, and an engine row's count and duration from the rows of its address in the cooldown |
| Escalation.KthBanEscalates | internal/decision/engine.go:108-117 | the engine's k-th ban within one cooldown has count k and the k-th duration, or the last |
| RoundTrips.RemoveUndoesAdd | internal/api/handlers.go:303-315 | removing a just-added entry restores the table and who is whitelisted |
| RoundTrips.RemoveTakesOneEntry | internal/store/store.go:340-343 | removal takes out that entry and keeps the others as often as before |
| RoundTrips.RemoveWhitelistMeans | internal/api/handlers.go:303-315 | after removing any entry exactly local addresses, the static list and the other stored entries whitelist; rows and backends stay |
| RoundTrips.WhitelistedMeans | internal/whitelist/whitelist.go:43-62 | whitelisted are 127.0.0.0/8, ::1, local addresses, and what a static or stored entry covers |
| RoundTrips.AddedEntryEnds | internal/api/handlers.go:243-301 | an addition ends exactly the live rows of a bare address, or the active and manual rows inside a CIDR, and stores the entry |
| RoundTrips.AddWhitelistAnswers | internal/api/handlers.go:243-301 | without failures the answer is 400, 409, 500 or success exactly as text, rows, `clear_ban` and table say |
| RoundTrips.ManualRefusals | internal/api/handlers.go:130-208 | 409 iff whitelisted or a live row exists, otherwise 400 iff address or duration does not parse, 404 iff no live row exists; refusals change nothing |
| RoundTrips.ManualBanMeans | internal/api/handlers.go:123-191 | a manual ban not refused leaves one row with its address, time and duration: manual and enforced on every backend in use, or ended when a backend failed |
| RoundTrips.ManualUnbanMeans | internal/api/handlers.go:193-223 | un-banning an address with a live row, where nothing fails or has drifted, ends that row alone and takes it off the backends; a dry-run row leaves them alone |
| RoundTrips.UnbanUndoesBan | internal/api/handlers.go:193-223 | un-banning a just-banned address restores chain and maps and leaves one ended row |
| Daemon.Whitelist.ContainsIP | internal/whitelist/whitelist.go:43-62 | the scans decide local, static or dynamic coverage |
| Daemon.Whitelist.ReloadDynamic | internal/whitelist/whitelist.go:76-95 | the dynamic prefixes become those of the stored entries |
| Daemon.Engine.Evaluate | internal/decision/engine.go:38-106 | carries out the decision step: the row recorded and the action returned |
| Daemon.Daemon.Start | internal/daemon/daemon.go:220-226 | startup over what the previous run left is the start step |
| Daemon.Daemon.ExpiryTick | internal/daemon/daemon.go:807-834 | the loop over the due rows carries out the tick step |
| Daemon.Daemon.ReconcileXdp | internal/daemon/daemon.go:545-587 | listing, comparing texts and deleting carries out the reconcile step, and a listing that errors ends the pass; nothing is counted removed iff every key was wanted |
| Daemon.Daemon.RemoveUnwanted | internal/daemon/daemon.go:569-577 | exactly the listed, unwanted, reachable keys go |
| Daemon.Daemon.RestoreBans | internal/daemon/daemon.go:848-875 | the loop over current rows carries out the restore step |
| Api.Server.CurrentBansCoveredBy | internal/api/handlers.go:317-342 | finds the covered rows |
| Api.Server.HandleAddWhitelist | internal/api/handlers.go:243-301 | carries out the whitelist-addition step with its reply |
| BoundedWindow.TrimKeepsView | internal/detect/detector.go:61-73 | dropping expired entries and all but the newest 10 000 hides nothing from any later reader |
| BoundedWindow.DropIsTrim | internal/detect/detector.go:61-73 | the prefix-dropping loop computes that trim |
| SlidingWindows.RunRefines | internal/detect/detector.go:52-134 | every run of adds and prunes refines the full event log |
| SlidingWindows.CountsRefineFullLog | internal/detect/detector.go:82-109 | the count is min(10 000, all in-window adds); the distinct count is over the newest of them |
| SlidingWindows.CountsMean | internal/detect/detector.go:82-109 | in any run the count is the number of adds of the address inside the window, up to 10 000, and the distinct count the number of non-empty keys of the newest 10 000 |
| SlidingWindows.PruneBound | internal/detect/detector.go:114-134 | after a prune every address held has entries, all inside the window |
| SlidingWindows.SweepBound | internal/detect/detector.go:76-79 | after an add at t every address held has an entry newer than t less two windows, and at most 10 000 entries |
| SlidingWindows.SlidingWindow.AddKeyed | internal/detect/detector.go:52-80 | carries out the add step in place |
| SlidingWindows.SlidingWindow.Count | internal/detect/detector.go:82-95 | the counting loop computes the count |
| SlidingWindows.SlidingWindow.DistinctCount | internal/detect/detector.go:97-109 | the set-building loop computes the distinct count |
| SlidingWindows.SlidingWindow.Prune | internal/detect/detector.go:114-134 | carries out the prune step in place |
| Detectors.VerdictRefinesHistory | internal/detect/bruteforce.go:26-50 | for every history and threshold the verdict and its count are those of the full history |
| Detectors.BruteForceMeans | internal/detect/bruteforce.go:26-50 | after any history a threat is raised iff the event is a REGISTER answered 401 or 403 and its source has at least the threshold of those inside the window; it reports how many |
| Detectors.DIDScannerMeans | internal/detect/did_scanner.go:36-65 | after any history a threat is raised iff the event is an INVITE request with source and user and the newest 10 000 of its source inside the window dial at least the threshold of users |
| Detectors.BruteForce.Detect | internal/detect/bruteforce.go:26-50 | carries out that verdict for failed REGISTERs |
| Detectors.DIDScanner.Detect | internal/detect/did_scanner.go:36-65 | carries out that verdict for distinct dialled numbers |
| FailedCallRatio.BucketRefinesFullLog | internal/detect/failed_call_ratio.go:88-126 | after every counted event the bucket is the newest 10 000 in-window events of the full log |
| FailedCallRatio.VerdictMeans | internal/detect/failed_call_ratio.go:58-126 | after any history a threat is raised iff the event is an INVITE with a source, and of the newest 10 000 calls of that source inside the window there are at least the minimum and the rejected, 4xx and 5xx ones reach the ratio; it reports how many calls |
| FailedCallRatio.SweepsNeverChangeVerdicts | internal/detect/failed_call_ratio.go:73-81 | any two schedules of sweeps give the same verdicts |
| FailedCallRatio.SweepForgetsQuiet | internal/detect/failed_call_ratio.go:73-81 | right after a sweep every address still held has a call inside the window |
| FailedCallRatio.FilterInPlace | internal/detect/failed_call_ratio.go:91-96 | filtering onto the front of the same array keeps exactly the live events in order |
| FailedCallRatio.CopyDown | internal/detect/failed_call_ratio.go:97-99 | the overlapping copy moves the newest events to the front |
| FailedCallRatio.Detector.Detect | internal/detect/failed_call_ratio.go:58-126 | carries out sweep, append, compaction and the ratio test |
| Dedup.KeyIdentifiesEvent | internal/ingest/dedup.go:33-35 | keys are equal iff the codes are and Call-ID and method joined by a bar are; with bar-free methods iff all fields are |
| Dedup.BarInMethodCollides | internal/ingest/dedup.go:33-35 | two different events that share a key |
| Dedup.PruningNeverChangesAnswers | internal/ingest/dedup.go:68-78 | pruning at any time never changes an answer |
| Dedup.PruneForgetsExactlyOldKeys | internal/ingest/dedup.go:68-78 | after a prune the table holds exactly the keys with a passing event less than one window ago |
| Dedup.TableIsLastAccepted | internal/ingest/dedup.go:37-48 | the table holds the time of the last event of each key that passed |
| Dedup.PassingEventsAreSpaced | internal/ingest/dedup.go:37-48 | passing events of a key are a window apart; each suppressed one follows a passing one by less |
| Dedup.Dedup.IsDuplicateEvent | internal/ingest/dedup.go:33-48 | carries out one question |
| Dedup.Dedup.PruneOld | internal/ingest/dedup.go:68-78 | carries out one prune |
| SipParser.ParseSIPMessage | internal/ingest/sipparser.go:33-87 | the header loop computes the parse |
| SipRoundTrip.ParseWritten | internal/ingest/sipparser.go:33-87 | writing a request or response and parsing it gives back method, code, reason, Call-ID, agent, users and credentials, for any headers in any order, number, case and compact form, the last of a kind counting (sections 7 and 7.3 of RFC 3261) |
| SipRoundTrip.HeaderOf | internal/ingest/sipparser.go:64-84 | what each header line does to the message, and that no other line does anything |
| SipRoundTrip.FirstUser | internal/ingest/sipparser.go:89-96 | the user of an address header is the leftmost `sip:` user `@` in its value |
| SipRoundTrip.NoUser | internal/ingest/sipparser.go:89-96 | and empty when there is none |
| SipRoundTrip.MethodIff | internal/ingest/sipparser.go:29 | a CSeq value gives a method iff number, blanks and a word are there |
| SipRoundTrip.FirstLineIff | internal/ingest/sipparser.go:45-57 | a first line is accepted iff it starts as a request or as a response |
| SipRoundTrip.TooFewLinesIff | internal/ingest/sipparser.go:35-41 | a text is refused as too short iff it has no newline |
| SipParser.SplitThroughBreak | internal/ingest/sipparser.go:35 | splitting at CR LF goes through any CR LF |
| SipParser.BodyIndependent | internal/ingest/sipparser.go:59-62 | the body after the blank line never changes the result (section 7 of RFC 3261) |
| SipParser.HasAuthIffCredentialsHeader | internal/ingest/sipparser.go:68-69 | credentials are seen iff a header line before the first blank one is Authorization or Proxy-Authorization |
| SipParser.HeadersCallId | internal/ingest/sipparser.go:66-67 | the last Call-ID header wins |
| Pcap.KeyInjective | internal/ingest/pcap.go:99-101 | a key names one Call-ID and one sender, whatever the Call-ID contains |
| Pcap.BoundedRunHoldsLatest | internal/ingest/pcap.go:266-284 | whatever was evicted or pruned, each record held is the latest request of its key |
| Pcap.BoundedRunEmitsSubset | internal/ingest/pcap.go:295-345 | the bounded run emits a subset of the unbounded run's 401/407 events and the same other events up to enrichment |
| Pcap.RequestIsReported | internal/ingest/pcap.go:267-297 | a request is reported with its own fields iff its sender is not local |
| Pcap.ResponseToHeldRequest | internal/ingest/pcap.go:299-345 | while the latest request is held, a 401 or 407 is reported iff that request carried credentials and any other code always, with its users, agent and missing method, and rejected iff listed |
| Pcap.ResponseWithoutRequest | internal/ingest/pcap.go:299-345 | with none held, a 401 or 407 is never reported and any other code always, without users or agent; a response to a local address is not |
| Pcap.LatestRequestIsHeld | internal/ingest/pcap.go:121-160 | in every run the latest request of a Call-ID and sender is held for five minutes while the map is not full |
| Pcap.WhatGoes | internal/ingest/pcap.go:121-160 | a prune drops exactly the records older than five minutes; a request evicts nothing unless the map is full, and then a tenth of it |
| Pcap.MatchesIsListed | internal/ingest/pcap.go:57-59 | a response is rejected iff its code is listed alone or with its phrase in any case |
| Pcap.RejectReasonMeans | internal/ingest/pcap.go:332-336 | the reason is the code followed by the phrase, if there is one |
| Pcap.LatestIsLastRequest | internal/ingest/pcap.go:273-283 | the unbounded map is the latest request of each Call-ID and sender |
| Pcap.FailedLoginsFollowCredentials | internal/ingest/pcap.go:299-330 | no event is attributed to a local address; a failed login follows the sender's latest request, which carried credentials |
| Pcap.CapacityHolds | internal/ingest/pcap.go:275-277 | no run holds more than 100 000 requests |
| Pcap.PcapCapture.EvictOldest | internal/ingest/pcap.go:121-140 | exactly min(n, size) entries go, none newer than a survivor |
| Pcap.PcapCapture.PruneInflight | internal/ingest/pcap.go:153-160 | exactly the entries older than five minutes go |
| Pcap.PcapCapture.HandleSIP | internal/ingest/pcap.go:266-345 | carries out one message: the map step and the event |
| LogTailer.TailReassembles | internal/ingest/logtailer.go:128-178 | the lines are the newline-terminated segments of each file in order, the rest is kept, tails of rotated files are dropped |
| LogTailer.ChunkingIndependent | internal/ingest/logtailer.go:135-176 | the same bytes read in any two ways give the same lines |
| LogTailer.OverlongLinesLoseOnlyTheirFront | internal/ingest/logtailer.go:139-143 | with the cap exceeded there is still one line per newline, a suffix of its segment |
| LogTailer.PartialIsBounded | internal/ingest/logtailer.go:139-143 | whatever is read, at most 64 KiB of an unfinished line are kept |
| LogTailer.TrimRightMeans | internal/ingest/logtailer.go:176 | a handled line is its line without the newlines and carriage returns at its end |
| LogTailer.LogTailer.Run | internal/ingest/logtailer.go:116-178 | the read loop handles those lines in order; matched are the recognised and unmatched the other non-empty ones |

## Left out

- Goroutines, tickers, signals, HTTP, JSON, CLI, logging, metrics, notifiers: input and output.
- Interleavings inside a handler: each handler is one atomic step; the program holds no lock across check-then-insert.
- SQLite: queries are filters over rows; database errors, and ties in `ORDER BY banned_at`, are not modelled (rows are listed newest first).
- Backends.Kernel.XdpBanOne: a full map is one of the failures an input can name; the map's size limit is not counted.
- Backends.Kernel.IptablesUnbanOne: a command that fails for an address fails throughout the step; failures that change inside one call are not modelled.
- ipset as the base backend, the prefilter and chain set-up: external commands.
- LifecycleTheorems.QuietRunStaysInAgreement: composite or iptables-only set-up; in standalone mode the chain is not compared, because nothing fills it.
- LifecycleTheorems.StartRepairs: the pinned IPv6 map holds no IPv4-mapped key; `ReconcileComparesKeysIff` says what happens otherwise.
- LifecycleTheorems.RunKeepsInv: one configuration (durations, cooldown, dry-run, standalone) for the whole run; a restart that switches dry-run or standalone mode is outside the run theorems. `StartRepairs` holds for such a restart too.
- XdpFilter.Program.XdpBanFunc: counters are unbounded, not 64-bit.
- The schema-version stamp, pin handling and attach modes: kernel set-up.
- Detectors other than `brute_force`, `did_scanner` and `failed_call_ratio`: the same window with another filter, or single checks.
- FailedCallRatio.Detector.Detect: the ratio is a rational comparison, not a floating-point one.
- LogTailer.LogTailer.Run: whether a file was rotated or truncated is an input of the read at end of file; the stat calls behind it, and waiting for a missing file, are not modelled.
- Log-line patterns, and turning lines into events: whether a line is recognised is a parameter.
- SipParser.ParseSIPMessage: letter case and white space are ASCII; Unicode case folding and spaces are not modelled.
- Building the reject matcher from configuration text, and a full event channel that drops events.
- Sub-second durations: times and durations are whole seconds.
