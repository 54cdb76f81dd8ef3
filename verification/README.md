# EdgeRouteGW: verified model

EdgeRouteGW is a declarative control plane for a gateway. A database holds the
desired state under a generation counter; a reconciler loads it, renders
artifacts, and drivers bring routing tables, Xray and WireGuard in line. This
project models the parts where a mistake would be silent and proves what they
keep.

| module | part of the program |
|---|---|
| `Ipv4`, `Sorting` | prefix arithmetic on 32-bit addresses; the library sort, search and string order |
| `Model` | the desired-state snapshot and its queries |
| `RouteEngine`, `RouteDriver`, `FrrDriver` | which prefixes are announced; bringing kernel table 200 there in paced batches, deletions first; the driver in front that also keeps FRR's files and unit |
| `SnapshotLoad`, `Reconciler`, `RouteConvergence` | the optimistic snapshot read against concurrent writers; the notify, coalesce, pass and retry protocol; what it brings the routing table to |
| `Domains`, `GeoEntry`, `Routing`, `Trace`, `XrayRender`, `Compile` | rule patterns, the traced meaning of the rules, the rendered Xray rule list, and their agreement |
| `XrayDriver`, `WgDriver` | hot update or restart; interfaces with a table and a mark by index |
| `GeoWire`, `GeoIndex` | the geosite file format and the two reverse indexes |
| `Schedule`, `Ledger`, `DnsTap` | update schedules, the changeset ledger with revert, the DNS cache |

A failed start or restart of the Xray unit is assumed to leave it down. Its unit
file has `Restart=on-failure`, so it may be started again later; that is the
outside start of `XrayDriver.OutsideStartCanDrift`. For the FRR unit a failed
request may leave it as it was, down, or started. The routing table, links and
rules of the kernel are assumed to be changed by the drivers alone.

Objects the program updates in place are classes, loops are loops, and both are
proved against functions or predicates on values; the lemmas are about those. A
failure is a choice the environment makes at any step, an interleaving is a
choice of what others commit in between.

`dafny verify dfyconfig.toml` checks everything.

## Where the code and its intent differ

Each of these is stated with the exact condition under which the code does meet
the intent.

- Validation of a candidate route looks at its network address only, so a prefix
  shorter than /16 can be accepted although it swallows a reserved block
  (`RouteEngine.AcceptedIsCleanIffNoSwallow`, `RouteEngine.ReservedAnnouncedIff`).
- The reconciler takes a skipped turn for a success. In Mode B or C without FRR,
  and in Mode A without FRR when the table cannot be listed, the route driver is
  not asked, and a generation counts as applied although table 200 is not what
  it publishes (`RouteConvergence.QuietTableIff`,
  `RouteConvergence.SkippedTurnIsQuiet`). In Mode B and C the component's health
  still says down; in Mode A nothing does.
- FRR's plan looks at the files and at whether the unit is active. A failed
  restart that leaves it running is not tried again
  (`FrrDriver.ServiceIsCurrentIff`, `FrrDriver.FailedRestartIsForgotten`).
- The trace and the renderer read a bare address and `geoip:private` differently
  (`Compile.MatchAgreesIff`, `Compile.SameRuleDecidesIff`,
  `Compile.BareAddressDiffers`, `Compile.PrivateAtSharedSpace`). Rules written
  through the API are normalised (`internal/api/v2/routing.go:228`); a bare
  address can come from a restored backup, whose rules are inserted as they are
  (`internal/api/v2/backup.go:173-175`). A geosite record of unknown kind is
  emitted as an exact name but matched by nothing (`GeoEntry.EntryMeaning`).
- A flow that carries an address and a sniffed name can be decided by an address
  rule that the trace of the name does not see (`Compile.SniffedAgreesIff`).
- The default node and the probe slots are chosen without asking whether the node
  builds, so a rule can name an outbound that is not there (`Compile.ClosedIff`).
- The Xray plan compares with the last success. If the unit was started from
  outside after a failed restart, a hot update can be accepted and leave the
  wrong configuration running (`XrayDriver.FaultFreeIff`,
  `XrayDriver.OutsideStartCanDrift`).
- The WireGuard plan also compares with the last success. A change that failed
  half way and was then taken back is not repaired. Old addresses that cannot be
  deleted and links that cannot be looked up are not reported, and what stays
  behind that way is not looked at again (`WgDriver.MatchesIff`,
  `WgDriver.AbandonedAttempt`, `WgDriver.StuckStays`).
- The address index scans back over sixteen entries and can miss a wide prefix
  behind a crowd of narrow ones (`GeoIndex.ScanAgreesIff`).
- `restoreDesired` is described as replacing every table. It does not write
  `sniff_override`, `tap`, `ecs_subnet`, `forward_rules` or `ipv6_mode`, and rule
  sets come back without the built-in mark (`Ledger.RestoreIsExactIff`).
- The scheduler runs a slot at most once, not at least once: only when it looks
  at the clock within two minutes of the slot (`Schedule.DueIff`).

## Model

| member | source | states |
|---|---|---|
| `RouteEngine.ValidateReadsNetwork` | internal/routes/engine.go:248-283 | validation accepts a prefix exactly when it is not the default route and its network address lies in no reserved block: the octet tests are the block list, read at one address |
| `RouteEngine.ValidateExact` | internal/routes/engine.go:248-283 | from /16 on, a masked prefix is accepted exactly when it is disjoint from every reserved block |
| `RouteEngine.ReservedRanges` | internal/routes/engine.go:248-283 | the reserved blocks as ranges of plain numbers |
| `RouteEngine.RefusalNamesBlock` | internal/routes/engine.go:248-283 | a refusal names exactly the block the network address is in |
| `RouteEngine.AcceptedIsCleanIffNoSwallow` | internal/routes/engine.go:248-283 | for any accepted prefix: it announces no reserved address exactly when it is not the supernet of a reserved block |
| `RouteEngine.ShortSupernetAccepted` | internal/routes/engine.go:257-277 | a /8 is accepted although it contains 172.16.0.0/12 |
| `RouteEngine.OffersExact` | internal/routes/engine.go:106-210 | what a rule contributes is exactly what it spells out, by itself or through an address list, and the answers for the names it follows, read on the snapshot: the mode, the last resolver row of a name, and the lists as they decode |
| `RouteEngine.LastRowIndexed` | internal/routes/engine.go:106-109 | of several resolver rows for a name the last counts |
| `RouteEngine.TrackedExact` | internal/routes/engine.go:188-204 | of a geosite list exactly the first 2000 records that name a host are followed |
| `RouteEngine.AllOffersTraceable` | internal/routes/engine.go:112-210 | every candidate is masked and carries the id of an active rule that names its prefix, and the kind of source it came from |
| `RouteEngine.ProtectedPrefixes` | internal/routes/engine.go:287-317 | the collected list holds exactly the literal and resolved addresses of nodes and managed hosts |
| `RouteEngine.CoveredBy` | internal/routes/engine.go:344-350 | reports a protected address inside the prefix, and none only if there is none |
| `RouteEngine.Policy` | internal/routes/engine.go:216-236 | a candidate passes exactly when it validates, covers no endpoint and the allow-list as written permits it; every rejection records the first test that failed |
| `RouteEngine.Prune` | internal/routes/engine.go:374-401 | the result is drawn from the input, covers all of it, is sorted by address and length and holds no prefix inside another |
| `RouteEngine.PruneIsMaximal` | internal/routes/engine.go:374-401 | those promises fix the result: a prefix is kept exactly when it is offered and lies in no other offered prefix |
| `RouteEngine.PruneKeepsUnion` | internal/routes/engine.go:374-401 | pruning neither loses nor invents an address |
| `RouteEngine.SortedAscends` | internal/routes/engine.go:374-401 | the published list goes up by address |
| `RouteEngine.Compute` | internal/routes/engine.go:84-237 | one computation: what is published, why each other candidate is rejected and which names are followed satisfy the promises used below; the names are exactly those some rule in force makes the resolver follow |
| `RouteEngine.PublishedExactly` | internal/routes/engine.go:216-237 | an address is announced exactly when an offered prefix holding it validates, covers no endpoint and lies in the allow-list if there is one |
| `RouteEngine.EndpointsNeverAnnounced` | internal/routes/engine.go:216-237 | no address of a node or managed host, literal or in any resolver row of its name, is ever announced |
| `RouteEngine.RefusedForEndpoint` | internal/routes/engine.go:287-317 | only such an address is ever the reason for a refusal |
| `RouteEngine.AllowListBounds` | internal/routes/engine.go:353-370 | with an IPv4 prefix in the allow-list as written, every announced address lies in one of its prefixes |
| `RouteEngine.RefusedForAllowList` | internal/routes/engine.go:353-370 | a refusal for the list means the list has an IPv4 prefix and the candidate sticks out of each |
| `RouteEngine.ReservedAnnouncedIff` | internal/routes/engine.go:216-283 | some reserved address is announced exactly when a candidate that passes the policy is the supernet of a reserved block |
| `RouteEngine.AnsweredNamesAreFollowed` | internal/routes/engine.go:150-214 | a prefix that a rule names is spelled out, or answers for a name handed to the resolver to follow |
| `RouteDriver.Kernel.DelAll` | internal/driver/route/kernel.go:96-107 | deletions happen one prefix at a time in order and may stop after any of them |
| `RouteDriver.Kernel.AddAll` | internal/driver/route/kernel.go:82-94 | additions happen one prefix at a time in order and may stop after any of them |
| `RouteDriver.Driver.MakePlan` | internal/driver/route/route.go:61-94 | the plan lists the two set differences, each prefix once and in order, and is empty exactly when the table is the target |
| `RouteDriver.Driver.Paced` | internal/driver/route/route.go:172-188 | requests of at most the batch size, with a pause between any two, carry out a prefix of the list in order, all of it on success |
| `RouteDriver.Driver.Apply` | internal/driver/route/route.go:153-169 | no addition before the last deletion; the kernel saw exactly the reported part of the plan, in paced requests of at most the batch size or 500; a count of installed prefixes is that of the final table |
| `RouteDriver.Driver.Reconcile` | internal/driver/route/route.go:61-169 | a pass without failure leaves exactly the rendered prefixes in the table and touches each prefix of the symmetric difference once; any other pass is cut off somewhere |
| `RouteDriver.FullPass` | internal/driver/route/route.go:61-169 | a complete pass leads from any table to the target, one operation per differing prefix |
| `RouteDriver.PassStaysWithin` | internal/driver/route/route.go:153-169 | at the end of any pass, cut anywhere, the table is within the old contents or within the target |
| `RouteDriver.RunNeverNests` | internal/driver/route/route.go:153-188 | over every sequence of passes with any targets and any failures, at every single operation, table 200 holds no prefix inside another |
| `RouteDriver.PublishedIsTarget` | internal/routes/engine.go:374-401 | what the engine publishes has no duplicates and no nesting, so it is a legal target |
| `SnapshotLoad.GenerationFixesTables` | internal/store/meta.go:30-39 | over any history of transactions after start-up, two instants with one generation have equal governed tables |
| `SnapshotLoad.StableWindow` | internal/desired/snapshot.go:37-57 | table reads at different instants between two equal generation reads are together the tables of one instant |
| `SnapshotLoad.DerivedDataCanDiffer` | internal/store/meta.go:42-47 | data written without a bump can differ at one generation |
| `SnapshotLoad.Store.Load` | internal/desired/snapshot.go:37-57 | whatever other connections commit in between, a returned snapshot equals the governed tables and generation of some instant of the call; it fails exactly with a failed read, and gives up only after three commits during the call |
| `Reconciler.StepInv` | internal/reconcile/reconcile.go:86-151 | every step of writers, loop, callers and pass keeps the invariant |
| `Reconciler.NoLostUpdate` | internal/reconcile/reconcile.go:86-325 | over every run a committed and notified generation is applied, or the token, the loop, a pass that loaded it or a retry still answers for it |
| `Reconciler.QuietMeansConverged` | internal/reconcile/reconcile.go:107-151 | if nothing is pending the latest generation is applied and every driver holds it |
| `Reconciler.NothingGoesBack` | internal/reconcile/reconcile.go:191-302 | applied generation and each driver only move forward and never past the counter |
| `Reconciler.AppliedOnlyWhenAllDriversAgree` | internal/reconcile/reconcile.go:221-296 | the applied generation is set only by a pass in which every driver planned and applied it |
| `Reconciler.UndisturbedPassConverges` | internal/reconcile/reconcile.go:107-151 | from any reachable rest state, once the writers have notified, one undisturbed pass brings the current generation everywhere and leaves nothing to do; the token makes it if there is one, else the resync timer |
| `Reconciler.Process.Pass` | internal/reconcile/reconcile.go:191-296 | the imperative pass is a run of the protocol, whatever drivers and writers do |
| `Reconciler.Process.Turn` | internal/reconcile/reconcile.go:107-151 | one turn of the loop is a run of the protocol with a whole pass in it; the token is taken unless a timer is ready too; afterwards a retry is scheduled, or what was committed before is applied and with every driver |
| `Reconciler.Process.Run` | internal/reconcile/reconcile.go:107-133 | the loop makes a pass at once and after every turn a retry is scheduled or what was committed before the start is applied everywhere |
| `FrrDriver.Driver.MakePlan` | internal/driver/frr/frr.go:59-130 | what is written, started, restarted or stopped, and the route part: the two differences of the table if the route driver was asked and could list it, nothing otherwise; without FRR planning cannot fail |
| `FrrDriver.Driver.Apply` | internal/driver/frr/frr.go:133-180 | routes first, then the actions in order, cut off at the first failure, which leaves a file as it was and a unit in one of the listed states |
| `FrrDriver.Driver.Pass` | internal/reconcile/reconcile.go:220-252 | one pass over this driver: asked for routes it ends at the target or fails after a cut pass; not asked it succeeds and leaves the table; files and unit end as planned or at some cut, and in Mode A the unit is down if its state could be seen |
| `FrrDriver.ServiceIsCurrentIff` | internal/driver/frr/frr.go:94-112 | a complete plan leaves the wanted files and an active unit, which runs them exactly when something was written, it was down or it ran them already |
| `FrrDriver.FailedRestartIsForgotten` | internal/driver/frr/frr.go:94-112 | a restart that fails with the unit still running leaves nothing to do for the next pass, and the old configuration in force |
| `RouteConvergence.FrrStep` | internal/driver/frr/frr.go:59-180 | a turn of the FRR driver in the joint runs is what its code establishes |
| `RouteConvergence.StepKeeps` | internal/reconcile/reconcile.go:191-302 | every joint step of protocol and FRR driver, skipped turns included, keeps the joint invariant |
| `RouteConvergence.QuietTableIff` | internal/reconcile/reconcile.go:107-296 | in every quiet state of every run, whatever failed before, the latest generation counts as applied, and table 200 is what the engine publishes for it exactly when the last turn asked the route driver (FRR installed, or Mode A and a listable table) or found the table so |
| `RouteConvergence.QuietTableIsPublished` | internal/reconcile/reconcile.go:107-296 | with FRR installed throughout, in every quiet state table 200 is what the engine publishes for a snapshot of the latest generation |
| `RouteConvergence.QuietTableAnnounces` | internal/reconcile/reconcile.go:107-296 | from the desired state to the kernel: with FRR installed throughout, in every quiet state of every run table 200 routes exactly the addresses of the admissible candidates of a snapshot of the latest generation, in Mode A none |
| `RouteConvergence.SkippedRun` | internal/driver/frr/frr.go:90-93 | outside Mode A without FRR, whatever is rendered and whatever the table holds, there is a legal run that ends quiet with the generation applied and the table untouched |
| `RouteConvergence.SkippedTurnIsQuiet` | internal/driver/frr/frr.go:90-93 | Mode B without FRR: a run in which nothing fails and nothing is left to do, with the pool published for the applied generation and an empty table |
| `Reconciler.Process.NotifyChange` | internal/reconcile/reconcile.go:86-92 | the one-slot channel: a notification leaves a token whether or not one was there |
| `Domains.SameHosts` | internal/rulespec/domain.go:70-111 | the Xray text, the Mosdns text and the matcher of a parsed pattern accept the same normalised names |
| `Domains.ParseIsStable` | internal/rulespec/domain.go:42-67 | parsing the stored form of a pattern gives the pattern back |
| `Domains.OneLabelAccepts` | internal/rulespec/domain.go:70-92 | the emitted single-label expression accepts exactly one label in front of the base |
| `Domains.PatternMeaning` | internal/rulespec/domain.go:42-111 | for a plain name b: b means b alone, *.b also b under one label, **.b also everything under it |
| `Domains.NormaliseForgets` | internal/rulespec/domain.go:42-67 | white space around a name, one dot at its end and ASCII capitals do not count |
| `Domains.LabelPattern` | internal/rulespec/domain.go:42-67 | a label is one alphanumeric, or two with at most 61 alphanumerics or hyphens between |
| `Domains.QuoteEscapesDots` | internal/rulespec/domain.go:70-92 | in a host name the dots, and only they, are escaped |
| `GeoEntry.EntryMeaning` | internal/geo/geo.go:44-67 | emitted text and linear matcher of a record agree on a name exactly when the kind is known or the name is not the text itself |
| `GeoEntry.UnknownKindDisagrees` | internal/geo/geo.go:44-67 | a record of unknown kind is emitted as an exact name but matched by nothing |
| `Model.DefaultNode` | internal/desired/snapshot.go:139-150 | an enabled flagged node is preferred; otherwise a default exists exactly as the only enabled node |
| `Model.ActiveRules` | internal/desired/snapshot.go:153-168 | the rules that are enabled in an enabled set, in order |
| `Trace.Run` | internal/trace/trace.go:43-82 | reports the first active rule that matches, its position and the outbound it resolves to |
| `Routing.TagsNeverCollide` | internal/render/xray.go:24-55 | two different tags are never written as the same text |
| `Routing.SelectorPrefix` | internal/render/xray.go:318-332 | the selector node- of the automatic balancer is a prefix of exactly the tags of nodes |
| `Routing.TagPattern` | internal/rulespec/values.go:11 | a geo tag is valid exactly when it is an optional bang, an alphanumeric and at most 63 tag characters |
| `Routing.TagIsStable` | internal/rulespec/values.go:15-25 | a valid geo tag normalises to itself, with or without a list name in front |
| `XrayRender.Renderer.ResolveAction` | internal/render/xray.go:353-426 | an action resolves to the target of the snapshot alone, and a balancer is collected exactly when a rule needs it |
| `XrayRender.RenderXray` | internal/render/xray.go:80-179 | outbounds are the fixed ones and the live nodes; rules are system, user and catch-all in that order; the balancers are exactly those the rules use, each rightly defined, and the observatory runs exactly when there is one |
| `XrayRender.ProbeSlots` | internal/render/xray.go:672-688 | slots go to the first 64 enabled nodes in id order, to all if there are fewer |
| `Compile.MatchAgreesIff` | internal/render/xray.go:428-470 | a compiled condition and the traced one agree on a flow exactly outside two cases: a bare address, and shared address space under geoip:private; tags are opaque keys |
| `Compile.PrivateAtSharedSpace` | internal/render/xray.go:458-459 | at 100.64.0.1 the compiled geoip:private condition holds and the traced one does not |
| `Compile.PrivateInNumbers` | internal/render/xray.go:458-459 | the private ranges of the trace, and the shared address space the renderer adds, as ranges of plain numbers |
| `Compile.BareAddressDiffers` | internal/trace/trace.go:164-169 | for a rule on a bare address the compiled condition holds at that address and the traced one does not |
| `Compile.ActionAgreesIff` | internal/render/xray.go:318-426 | whatever builds, an action compiles to the outbound the trace names exactly in the listed cases of live against enabled nodes |
| `Compile.AllBuildSame` | internal/render/xray.go:318-426 | if every enabled node builds, every action does |
| `Compile.UserRulesAgree` | internal/render/xray.go:158-163 | the first compiled user rule a flow meets is the compilation of the first rule that the trace matches or that is read differently |
| `Compile.SystemRulesIgnoreLan` | internal/render/xray.go:121-157 | LAN traffic meets none of the system rules |
| `Compile.SameRuleDecidesIff` | internal/render/xray.go:428-470 | the first rule touching a destination, which decides the compiled list, is the first the trace matches exactly when it is not read differently |
| `Compile.CompilationAgreesIff` | internal/render/xray.go:121-166 | the rendered list is decided by the first rule touching a LAN flow; unless that rule is read differently the trace is decided by it too, and the tags agree exactly when its action (without a rule, the default) is sent the same way. For a flow with an address and a sniffed name this is the trace extended to both, since the program traces one of them |
| `Compile.CompilationPreservesMeaning` | internal/render/xray.go:121-166 | so it does if every enabled node builds, unless that rule is one of the two read differently; later rules do not matter |
| `Compile.SniffedAgreesIff` | internal/trace/trace.go:43-82 | the rule deciding a flow to an address with a sniffed name is the one the trace of the name finds exactly when it is not about addresses; then the reported outbound is the same |
| `Compile.SniffedCanDiffer` | internal/trace/trace.go:43-82 | a direct address rule decides a flow whose name the trace sends to the proxy |
| `Compile.EveryFlowIsDecided` | internal/render/xray.go:164-166 | every flow of every inbound is decided in the first pass over the rules |
| `Compile.ProbeReachesItsNode` | internal/render/xray.go:125-141 | a probe account reaches the node of its slot and any other account is dropped |
| `Compile.ServiceFlows` | internal/render/xray.go:121-141 | API traffic goes to the API and, in Mode B, DNS traffic to the DNS outbound |
| `Compile.UpstreamFlow` | internal/render/xray.go:141-157 | a query of the local resolver to one of its public upstreams leaves by the default outbound before any user rule |
| `Compile.TargetsAreUsable` | internal/render/xray.go:318-426 | no rule uses a balancer without live nodes behind it: the automatic one needs one, a group two |
| `Compile.BalancersAreDefined` | internal/render/xray.go:372-426 | every selector and fallback of every balancer names an outbound of the configuration, whether or not all nodes build |
| `Compile.BalancersMean` | internal/render/xray.go:318-426 | each rendered balancer, told from the members of its group and the state of the nodes: failover sends to the first live member and falls back on the second; balancing sends to the live members in order, by the strategy of the group or leastPing, and falls back on block under strict failover, else on a live default that is no member, else on direct |
| `Compile.ClosedIff` | internal/render/xray.go:121-190 | every reference resolves exactly when the nodes in probe slots are live, and the default node too if the snapshot has anything that falls back on it |
| `Compile.UnbuiltNodeIsReferred` | internal/render/xray.go:125-141 | one enabled node that does not build leaves a probe rule to an outbound that is not there |
| `Compile.ClosedIffAllBuild` | internal/render/xray.go:672-688 | with at most 64 enabled nodes the configuration is closed exactly when every enabled node builds |
| `XrayDriver.DiffOutbounds` | internal/driver/xray/xray.go:278-295 | additions are the new and changed tags, removals the gone and changed ones, each once and sorted; a tag with one text on both sides is in neither |
| `XrayDriver.HotEqualsRestartIff` | internal/driver/xray/xray.go:153-182 | an accepted hot update leaves the instance as a restart would exactly when it agreed with the plan outside the diff and nothing to be dropped stayed behind |
| `XrayDriver.HotPathIsAccepted` | internal/driver/xray/xray.go:153-182 | against the state the diff was taken from, every removed tag exists and no added tag collides |
| `XrayDriver.FaultFreeIff` | internal/driver/xray/xray.go:53-150 | from any world a pass without failures writes the file, and leaves the unit holding the new configuration exactly in the favourable case of its branch |
| `XrayDriver.CoherentIsFavourable` | internal/driver/xray/xray.go:53-95 | in a coherent world the only unfavourable case is an inactive unit without a binary |
| `XrayDriver.OutsideStartCanDrift` | internal/driver/xray/xray.go:80-88 | a failed restart followed by a start from outside lets an accepted hot update leave the wrong structure running |
| `XrayDriver.Driver.HotUpdate` | internal/driver/xray/xray.go:153-182 | an outbound with one text on both sides is untouched even on failure; success is the hot effect |
| `XrayDriver.Driver.Apply` | internal/driver/xray/xray.go:109-150 | whatever command fails, success means the unit holds the new configuration and failure leaves a coherent world |
| `XrayDriver.Driver.Pass` | internal/driver/xray/xray.go:53-150 | coherence is kept by every pass; success means the unit runs the structure, outbounds and rules of the new configuration, and only then is it remembered |
| `WgDriver.RenderWG` | internal/render/wg.go:128-154 | the first 64 converted nodes in id order, table 300 and mark 0x100 counted up by index |
| `WgDriver.ConvertedExact` | internal/render/wg.go:133-143 | each node that converts gives its interface, as often as it is there |
| `WgDriver.NumberedOwnTables` | internal/render/wg.go:144-153 | interfaces of one rendering have distinct tables in the reserved range, each with the mark of its table |
| `WgDriver.SameIface` | internal/driver/wg/wg.go:124-140 | true exactly when two interfaces of one name are equal |
| `WgDriver.PlaceOf` | internal/driver/wg/wg.go:66-69 | what is kept for a name is the last interface of that name in the list |
| `WgDriver.Driver.MakePlan` | internal/driver/wg/wg.go:62-122 | additions, updates and removals partition the difference between what exists and what is wanted, each interface once |
| `WgDriver.RemoveSpares` | internal/driver/wg/netlink.go:181-204 | removing an interface, with whatever failures, leaves one with another name and table as it stood |
| `WgDriver.EnsureSpares` | internal/driver/wg/netlink.go:24-93 | configuring an interface leaves one with another name and table as it stood |
| `WgDriver.PlanIsApart` | internal/render/wg.go:144-153 | removals never hit the table of a kept interface and additions never one another, even when indexes shift |
| `WgDriver.Backend.Ensure` | internal/driver/wg/netlink.go:24-93 | success means link, keys, wanted addresses, default route and rule are there; the address list is exact unless an old address got stuck without an error |
| `WgDriver.Backend.Remove` | internal/driver/wg/netlink.go:181-204 | success means the link is gone unless it could not be looked up; failures to delete rules and routes are not reported |
| `WgDriver.ExactMeans` | internal/driver/wg/netlink.go:24-93 | an exact interface field by field: key, MTU, peers, exactly the listed addresses, and for each family among them the default route of its table and the rule for its mark |
| `WgDriver.Driver.Apply` | internal/driver/wg/wg.go:143-167 | carrying on after errors, an interface left alone stands as it stood after every call; without an error every other wanted one is routed through itself in its own table, and nothing else is left but what got stuck |
| `WgDriver.WorksIff` | internal/driver/wg/wg.go:143-167 | after a pass without error every wanted interface works, whatever was swallowed, exactly when those left alone did |
| `WgDriver.MatchesIff` | internal/driver/wg/wg.go:143-167 | a pass without error leaves exactly the wanted interfaces, exactly configured, if and only if it started from a repairable kernel and nothing got stuck |
| `WgDriver.StuckStays` | internal/driver/wg/wg.go:70-90 | what got stuck without an error is not repaired by a later pass for the same interfaces |
| `WgDriver.MatchingIsRepairable` | internal/driver/wg/wg.go:70-83 | a kernel matching the last success, or any kernel after a restart, is repairable |
| `WgDriver.AbandonedAttempt` | internal/driver/wg/wg.go:70-90 | a change of MTU that failed half way and was taken back leaves a kernel that is not repairable |
| `WgDriver.Driver.Pass` | internal/driver/wg/wg.go:62-167 | over the list itself: without an error every interface that is the last of its name works if those left unchanged did; the kernel holds exactly these, exactly configured, if and only if the pass could bring it there and nothing got stuck; after an error the same pass can be tried again |
| `GeoWire.VarintRoundTrip` | internal/geo/encode_test_helpers.go:15-16 | every 64-bit value survives encoding as a varint |
| `GeoWire.FieldNumbers` | internal/geo/geo.go:203-206 | field numbers go from 1 to 2^31 - 1; a tag with any other is malformed |
| `GeoWire.NumberBytes` | internal/geo/geo.go:207-214 | bytes 8n+0 and a byte below 128 are field n with that number; of two bytes the first gives the low seven bits |
| `GeoWire.BlobBytes` | internal/geo/geo.go:216-221 | byte 8n+2, a length and that many bytes are field n with these bytes |
| `GeoWire.FixedBytes` | internal/geo/geo.go:207-214 | types 1 and 5 take eight and four bytes |
| `GeoWire.GroupBytes` | internal/geo/geo.go:207-214 | byte 8n+3 opens a group and 8n+4 closes it under the same number only; groups nest |
| `GeoWire.GroupOpened` | internal/geo/geo.go:207-214 | a group may open inside 10000 others and no more |
| `GeoWire.NoField` | internal/geo/geo.go:203-206 | a closing marker alone, the types 6 and 7 and the field number 0 are malformed |
| `GeoWire.ParseAppend` | internal/geo/geo.go:199-230 | messages concatenate: parsing a well-formed message followed by anything is its fields followed by the rest |
| `GeoWire.SplitList` | internal/geo/geo.go:199-230 | the loop indexes sites exactly as the fold over the fields of the message, and fails exactly when a field or a tag is malformed |
| `GeoWire.ReadStringField` | internal/geo/geo.go:234-254 | the first occurrence of the field, without looking past it |
| `GeoWire.StringFieldMeans` | internal/geo/geo.go:234-254 | a string field is the first wanted one among the fields of a message, empty without one; what is malformed makes it unreadable only if it comes before, but the message as a whole always |
| `GeoWire.DecodeDomain` | internal/geo/geo.go:289-333 | the loop agrees with the fold over the fields; later kinds and values override |
| `GeoWire.DecodeGeoSite` | internal/geo/geo.go:257-287 | the loop agrees with the fold over the fields, keeping records with a value |
| `GeoWire.RecordBytes` | internal/geo/geo.go:289-333 | a record in bytes: field 1 is the kind (0 keyword, 1 expression, 2 root, 3 full, else unknown), 2 the value in lower case, 3 an attribute with its key in field 1 |
| `GeoWire.SiteBytes` | internal/geo/geo.go:199-287 | a site in bytes: field 1 is the tag and 2 a record; a list has its sites in field 1 |
| `GeoWire.ExampleRecord` | internal/geo/geo.go:289-333 | the record 08 02 12 0b example.com is the root entry example.com |
| `GeoWire.DecodedIsLower` | internal/geo/geo.go:280-284 | whatever the bytes, decoded values are lower-case and not empty |
| `GeoWire.UnknownFieldsIgnored` | internal/geo/geo.go:207-214 | a well-formed field the reader does not use, between any two fields of a list, site or record, changes nothing |
| `GeoWire.UnknownFieldsIgnoredInString` | internal/geo/geo.go:234-254 | the same for the first occurrence of a string field |
| `GeoWire.EncodeSiteList` | internal/geo/encode_test_helpers.go:7-33 | the file is the concatenation of the sites in some order of the map |
| `GeoWire.SiteRoundTrip` | internal/geo/geo.go:257-333 | decoding any encoded site yields its entries in order, lower-cased, without empty values and attributes |
| `GeoWire.EntriesKeptIff` | internal/geo/geo.go:280-320 | they come back unchanged exactly when every entry is clean |
| `GeoWire.RoundTrip` | internal/geo/geo.go:199-333 | for distinct lower-case tags every site is found again and decodes to what was written exactly when its entries are clean |
| `GeoIndex.Scan` | internal/geo/index.go:74-80 | binary search and bounded scan report a list exactly when a holding prefix has fewer than sixteen later entries starting at or before the address |
| `GeoIndex.ScanAgreesIff` | internal/geo/index.go:74-80 | index and linear scan agree on a held address exactly when the last holding prefix has fewer than sixteen such entries |
| `GeoIndex.DisjointListsAgree` | internal/geo/index.go:64-84 | for lists without overlaps the index equals the linear scan |
| `GeoIndex.ShortListsAgree` | internal/geo/index.go:64-84 | so it does for lists of at most sixteen entries |
| `GeoIndex.CrowdedListMisses` | internal/geo/index.go:74-80 | a wide prefix followed by sixteen single addresses is missed |
| `GeoIndex.HitIsSound` | internal/geo/index.go:74-80 | a list that is hit holds the address |
| `GeoIndex.IPIndex.Lookup` | internal/geo/index.go:64-84 | the sorted, distinct tags that are hit, after a rebuild when the file changed; a tag whose list lacks the address is never reported |
| `GeoIndex.RefsFor` | internal/geo/index.go:166-171 | exactly the tags of the references with the key |
| `GeoIndex.RootSearch` | internal/geo/index.go:183-190 | the walk over the suffixes finds exactly the root references that accept the name |
| `GeoIndex.FiledIff` | internal/geo/index.go:136-157 | some filed reference of a tag accepts a name exactly when the linear matcher accepts some entry of the tag |
| `GeoIndex.SiteIndex.Lookup` | internal/geo/index.go:174-207 | exactly the indexed tags with an entry the linear matcher accepts, sorted and distinct |
| `GeoIndex.EveryTagIsIndexed` | internal/geo/index.go:130-132 | no tag is left out exactly when there are at most 65535 |
| `Schedule.NextIsLeast` | internal/update/schedule.go:93-119 | the next run is the least instant strictly after now that the schedule names, in the Gregorian calendar over all integers |
| `Schedule.MonthStartExact` | internal/update/schedule.go:93-119 | walking month by month gives the calendar: 365 days a year and one more for every fourth, but not the full centuries unless multiples of 400 |
| `Schedule.GregorianPeriod` | internal/update/schedule.go:93-119 | 400 years are 146097 days, a whole number of weeks |
| `Schedule.KnownEpoch` | internal/update/schedule.go:93-119 | January 1, 1970 was a Thursday |
| `Schedule.KnownLeapDay` | internal/update/schedule.go:93-119 | February 29, 2024 was a Thursday |
| `Schedule.Next` | internal/update/schedule.go:93-119 | returns the least instant strictly after now that the schedule names |
| `Schedule.SlotsApart` | internal/update/schedule.go:93-119 | two slots of one schedule are at least a day apart |
| `Schedule.DueIff` | internal/update/schedule.go:170-178 | a look at the clock runs a slot exactly when it came less than two minutes ago or just now |
| `Schedule.LateLookMisses` | internal/update/schedule.go:160-197 | a slot looked for a second early and three minutes late is run neither time |
| `Schedule.Scheduler.Turn` | internal/update/schedule.go:160-197 | one look starts exactly the components with a slot at most two minutes old, each by its stored schedule, and sleeps an hour at most, not past the next slot, but three minutes after a run |
| `Schedule.Scheduler.RunScheduler` | internal/update/schedule.go:160-197 | with a clock that never goes back and schedules that change at will, the log is made of what was due at every look, every run is for a timely slot, and per component the slots strictly increase |
| `Ledger.RestoreBringsBack` | internal/store/snapshot.go:177-244 | restoring any snapshot that can be written, also one of an older version, brings back every column a restore writes, with the default for the two that may be missing |
| `Ledger.RestoreMeans` | internal/store/snapshot.go:177-244 | column by column: the tables and seventeen named columns come from the snapshot, hijack and block-dot too or become 1, the other five named columns stand as they stood, and no rule set is marked built-in |
| `Ledger.RestorableMeans` | internal/store/snapshot.go:231-244 | a snapshot can be written exactly when it has the seventeen columns |
| `Ledger.FullIsComplete` | internal/store/snapshot.go:49-120 | a snapshot taken under the present schema has every column that must have a value, and nothing is added to it |
| `Ledger.RestoreIsExactIff` | internal/store/snapshot.go:177-244 | it brings back the whole state exactly when the unwritten columns stand as they stood and no rule set was built in |
| `Ledger.BuiltinIsLost` | internal/store/snapshot.go:203-207 | one built-in rule set comes back without its mark |
| `Ledger.RestoreCanBeUndone` | internal/store/snapshot.go:177-244 | restoring the replaced state undoes a restore exactly when that state had no built-in rule set |
| `Ledger.Store.Mutate` | internal/store/mutate.go:25-59 | all or nothing: a new generation with its snapshot, which can be restored in full, and thinned old rows, the newest 200 generations keeping theirs, or no change; it succeeds exactly when the body does and the transaction goes through |
| `Ledger.PruneSnapshots` | internal/store/snapshot.go:266-272 | if it works, exactly the snapshots 200 or more generations old are dropped |
| `Ledger.MutateKeeps` | internal/store/mutate.go:25-59 | a write keeps generations distinct and ordered, snapshots true to their generation, and the newest 200 restorable |
| `Ledger.PruneKeeps` | internal/store/retention.go:83-83 | pruning keeps all of that |
| `Ledger.Store.PruneHistory` | internal/store/retention.go:72-92 | drops exactly the old rows past the newest 200 generations |
| `Ledger.Store.RevertTo` | internal/store/snapshot.go:248-264 | succeeds exactly when the first changeset of that name keeps a snapshot with every required column and the transaction goes through; then that snapshot is restored, named column by named column, as a strictly newer generation with an entry of its own, and the rows after the restored one are marked if that works; anything else changes nothing |
| `Ledger.Store.Annotate` | internal/store/nodes.go:126-135 | a write without a new generation keeps the ledger consistent, and only the newest snapshot falls behind the state |
| `Ledger.Store.MarkReverted` | internal/store/snapshot.go:260-262 | if it works, exactly the rows strictly between the two generations are marked |
| `DnsTap.PruningIsInvisible` | internal/observe/dnstap.go:125-142 | pruning at one time changes no lookup then or later |
| `DnsTap.DnsTap.Lookup` | internal/observe/dnstap.go:54-82 | read off the log of everything taken in: the name of the latest answer for the address to this client if it is younger than the time to live, else of the latest to anyone if that is, else nothing |
| `DnsTap.DnsTap.Record` | internal/observe/dnstap.go:92-123 | an answer is taken in exactly when it is not empty and the unexpired entries leave room, and then adds one entry per address, in order; the count stays the number of entries and below the bound plus the longest answer |
| `DnsTap.DnsTap.Prune` | internal/observe/dnstap.go:125-142 | drops exactly the expired entries, counting each |

## Left out

- IPv6 prefixes and addresses: rules, lists and interfaces may carry them, but they hold no IPv4 flow and are opaque here.
- HTTP handlers, the web UI, events, deployment, downloads and authentication: input and output without a property of their own.
- JSON, YAML, nftables and shell text: rules, outbounds and balancers are datatypes, and the structural hash stands for the structure itself.
- RouteEngine.Compute: warnings, detail texts and the count of names beyond the cap are not computed; the state of a rejected route is its reason.
- Compile.MatchAgreesIff: a geosite tag is one key into the lists. Tags with an attribute (`google@cn`) are accepted (`internal/rulespec/values.go:15-25`) and Xray reads them as a list filtered by the attribute, while the trace looks up the whole text; this third difference is not modelled. Nor is that Xray refuses a configuration naming a list that is missing, where the model says no match.
- SnapshotLoad.GenerationFixesTables: seeding the built-in rule set (`internal/store/builtin.go:44-81` and `:137-147`) writes rule sets and rules without a bump. It runs while the database is opened, before any load of that process, and is assumed not to overlap a load.
- XrayRender.RenderXray: inbounds, log settings and the structural hash (`internal/render/xray.go:190-228`) are not rendered; `XrayDriver` takes the structural part as a text.
- SQL: a transaction is one atomic step, and a table read by one statement is one read. The nine governed tables are read one after the other at different instants, groups and their members being two of them. Node latency and bypass remarks, written without a bump, count as derived.
- Decryption of node credentials during a load: it only adds another way for a read to fail.
- The other drivers (Mosdns and nftables), the text of frr.conf and of the daemons file, ownership of both, and the tables of older versions that the route driver cleans up.
- Shutdown, cancellation of a pass, status texts, backoff intervals and health: the retry is a flag and a timer that may fire.
- Diff passed by a caller of `Mutate`, and a capture that fails: no caller passes one, and the newest-200 property is stated for writes whose capture succeeds.
- Times of rows other than a changeset's: row order after a restore depends on insertion times and is not modelled, tables are maps by id.
- Regular expressions other than the emitted single-label one, and geosite and geoip contents, are parameters.
- Balancer selectors other than that of all nodes name one outbound each: Xray reads a selector as a prefix, and no id is taken to be a prefix of another.
- Xray's second matching pass on resolved addresses: it is never reached, see `Compile.EveryFlowIsDecided`.
- Upper-case letters outside ASCII in geosite text: lower-casing is that of ASCII.
- Decoding of geoip lists: the same message reader with another record; the lists are parameters of the index.
- Parsing of schedule texts and daylight-saving changes: schedules are values and the zone has a fixed offset.
- Conversion of a node into a WireGuard interface, and routes that disappear when an address is deleted from a link: interfaces are inputs, and only the default route of a table is modelled.
- Two interface names with one hash: the later interface of one name wins, as in the driver, and the properties are about the winners.
- A file that changes while an index is being rebuilt: a rebuild reads one version, and one version has one content.
- Unmapping of IPv4-in-IPv6 addresses and the packet parser in front of the DNS cache: addresses are already plain.
- A client time that goes back: the DNS cache and the scheduler are stated for a clock that does not.
