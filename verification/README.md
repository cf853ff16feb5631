# kea-operator: a verified model of the reconciliation protocol

The kea-operator keeps DHCPv4 reservations in ISC Kea in step with NetworkConfiguration objects. This project
models the part that decides what is written to Kea and to the objects, and proves what it keeps over every
interleaving, every pattern of failed or lost commands, every failover and every order of MAC addresses.

`dafny verify dfyconfig.toml` checks everything.

## How it is laid out

| file | models |
|---|---|
| `Text.dfy`, `Macs.dfy`, `MacText.dfy` | trimming, splitting and joining; MAC normalisation, validation and extraction; the spellings of an address |
| `Ipv4.dfy`, `Prefixes.dfy` | pool arithmetic on byte arrays against 32-bit numbers, dotted-quad text; what the text of a prefix means |
| `KeaServer.dfy` | a Kea server's tables, commands and answers; the delivery of one command; two-peer `Send` |
| `Service.dfy` | the Kea operations as functions of the world and the fates of their commands, with their theorems |
| `SubnetProtocol.dfy` | any number of concurrent get-or-create calls as a state machine |
| `Reservations.dfy` | the per-MAC loop and the cleanup loop |
| `Controller.dfy`, `Outcomes.dfy`, `Quiescence.dfy` | one reconcile; what it reports and when it comes back; what the next one does |
| `Failover.dfy` | every operation with a silent primary against the same operation with the secondary alone |
| `Lifecycle.dfy` | an object from creation to disappearance, with users, other controllers and Kea moving in between |
| `Client.dfy`, `KeaService.dfy`, `Reconciler.dfy` | the code in its own form: classes, loops and assignments, each method proved equal to its specification function |

Every command sent meets a *fate*: answered truthfully, refused, answered with an unreadable body, or met with
silence, the last two with or without having taken effect. Theorems that mention no assumption on fates hold for all
of them; `Truthful` means that the primary answers every command. A world holds one or two servers, the log of all
commands sent and the peer that answered last, so a theorem about one table is the case without a secondary.

Where the code and its documentation disagree the model follows the code:

- The README of the operator says that a device needs a lease before a reservation is made. The code makes a
  MAC-only reservation instead; `Reservations.ReservationWithoutLease` states it.
- `CalculatePoolFromCIDR` means to refuse networks that are too small. Byte wrap-around lets a few /30, /31 and /32
  networks through with a pool that starts outside them; `Ipv4.PoolAcceptance` lists them exactly.
- The comment above the deletion branch says that cleanup runs for every object with our finalizer. The provider check
  comes first, so an object that was claimed and then given another provider is never released
  (`Lifecycle.OtherProviderIsNeverReleased`), while an object that was never claimed has its MACs' reservations removed
  when it is deleted, whatever its namespace type (`Lifecycle.DeletionIgnoresTriage`).
- Cleanup looks only in the subnet resolved from the prefix, creation also uses the lease's subnet.
  `Reservations.CreateThenDelete` says exactly when nothing stays behind.
- A missing or bad prefix is reported in the phase but not in the Ready condition, so an object that was Ready at this
  generation keeps saying so beside phase Error; an object without MACs is in phase Ready with a condition that was
  never made true. `Outcomes.PhaseAgainstCondition` says exactly when the two disagree.
- MACs are normalised from dashes to colons only. The dotted form passes validation as it is, so one device written
  both ways counts as two MACs (`MacText.DottedCountsTwice`).

## Model

| member | source | states |
|---|---|---|
| `SubnetProtocol.AtMostOneAddPerCidr` | internal/services/kea/service.go:176-210 | In one process, over every interleaving of any number of calls with arbitrary delivery failures, at most one subnet4-add per CIDR takes effect and all successful calls for a CIDR return one id, even on a server that takes duplicates |
| `SubnetProtocol.IdsMatchCidrs` | internal/services/kea/service.go:50-269 | With any number of processes and foreign writers against a server that refuses duplicates, the table stays one-to-one and two successful calls return the same id exactly when they asked for the same CIDR |
| `SubnetProtocol.LocksAloneDoNotSeparateIds` | internal/services/kea/service.go:43-46 | The per-CIDR locks do not keep ids apart by themselves: a run in which two CIDRs both get id 1 on a server that takes duplicates |
| `SubnetProtocol.OneProcessStep` | internal/services/kea/service.go:176-210 | Every step keeps mutual exclusion per CIDR and the fact that a call between its listing and its add knows the CIDR is absent |
| `SubnetProtocol.SharedStep` | internal/services/kea/service.go:201-208 | Every step, foreign writes included, keeps the table one-to-one and every returned id the listed one |
| `SubnetProtocol.SomeCallCanStep` | internal/services/kea/service.go:179-181 | No deadlock: while a call has not returned, some call can step |
| `SubnetProtocol.StepsUseUpRank` | internal/services/kea/service.go:176-210 | Every step of a call lowers a natural number, so without new arrivals all calls return |
| `SubnetProtocol.AloneIsGetOrCreate` | internal/services/kea/service.go:176-210 | A call stepped with nobody else moving has the outcome and the table of the sequential operation |
| `Service.ResolvedIsHeld` | internal/services/kea/service.go:176-210 | Whatever fails or fails over, a resolved or created (CIDR, id) is held by the peer that answered last; created means that the last command was the accepted subnet4-add |
| `Service.TruthfulGetOrCreate` | internal/services/kea/service.go:136-210 | Against a truthful server the call always succeeds, creates exactly when the CIDR was not listed, and changes nothing else |
| `Service.NextIdIsFree` | internal/services/kea/service.go:137-173 | The id chosen from a listing is positive and above every id in use |
| `Service.SubnetIdIsListed` | internal/services/kea/service.go:213-269 | A lookup returns the id the answering peer lists first for the CIDR, and "no matching subnet" exactly when it lists none |
| `Service.NoMatchingOnlyFromListing` | internal/services/kea/service.go:213-269 | "No matching subnet" comes only from an answered listing without a numbered entry for the CIDR, never from a failure or an unexpected shape |
| `Service.CreateSends` | internal/services/kea/service.go:50-173 | CreateSubnet sends one subnet4-add with the given id, else one above all ids listed by the answering peer, else 1 when nothing could be listed; without a CIDR it sends nothing |
| `Service.CreatesOnlyUnlisted` | internal/services/kea/service.go:183-209 | With one peer or two, a subnet4-add is tried only after an answered listing without the CIDR; an error means that the last command was a listing, and after an add it is the add's error |
| `Service.FailedMeansUnlisted` | internal/services/kea/service.go:201-209 | If a peer answers the last listing of a failed call, that peer does not list the CIDR |
| `Service.DocumentCarries` | internal/services/kea/service.go:61-114 | The document holds the given settings, lifetime 4000 by default, timers only when positive, the pool only with both ends, the gateway as option 3 and the joined DNS list as option 6 |
| `Service.OptionRoundTrip` | internal/services/kea/service.go:93-114 | What CreateSubnet writes GetSubnetInfo reads back: always the gateway, and the DNS list exactly when every entry is non-empty, trimmed and comma-free |
| `Service.OptionsReadExactly` | internal/services/kea/service.go:315-367 | On any option list the gateway is the last router option and the DNS list holds exactly the fields of all DNS options |
| `Service.ExistsRefines` | internal/services/kea/service.go:432-497 | The two-query check changes no table, is never wrongly true, and with one server is wrongly false only when both queries fail |
| `Service.ByIdVerdictExact` | internal/services/kea/service.go:438-477 | A truthful by-id answer settles exactly whether the MAC has a host in the subnet |
| `Service.ByIdAnswerExact` | internal/services/kea/service.go:446-472 | On any by-id answer a host of the MAC counts if it is in the subnet or names none; junk and other subnets do not count |
| `Service.ScanVerdictExact` | internal/services/kea/service.go:479-496 | So does a truthful get-all answer |
| `Service.EnsureSound` | internal/services/kea/service.go:399-429 | Under any fates an error-free call leaves the host on some peer, created means the answering peer's table grew by exactly that host, and no table changes otherwise |
| `Service.EnsureSingleServer` | internal/services/kea/service.go:399-429 | With one server, created exactly when the host was missing and the table grew by it |
| `Service.BestLeaseIsFirstNewest` | internal/services/kea/service.go:512-554 | The lease scan yields the first lease of maximal cltt among the matching ones, and none only if none matches, whatever foreign or malformed entries surround them |
| `Service.SingleLeaseReads` | internal/services/kea/service.go:555-570 | A single lease object reads as a one-entry list exactly when it has no address or carries the MAC: its MAC is not checked |
| `Service.FallbackFindsReservation` | internal/services/kea/service.go:574-600 | Under any fates, a lease query that failed or found no address is followed by the reservation query, whose first stored address is returned with its host's subnet |
| `KeaServer.SendEffect` | pkg/clients/keaclient/keaclient.go:108-170 | A command is applied at most once per peer, reaches the secondary only after silence from the primary, and a query changes nothing |
| `KeaServer.AnswerIsTrue` | pkg/clients/keaclient/keaclient.go:147-167 | An answer is the truth about the peer recorded as current, and that peer has carried the command out |
| `KeaServer.FailoverExact` | pkg/clients/keaclient/keaclient.go:108-170 | For reads and writes alike: a silent primary hands the command to the secondary, whose answer comes back, whose table has the effect and which becomes current; Send fails exactly when every peer reached gave nothing readable |
| `KeaServer.AnsweredByPeer` | pkg/clients/keaclient/keaclient.go:114-166 | Any command is carried out and truthfully answered by the peer that answers, which is recorded as current |
| `Failover.DeadPrimaryIsTransparent` | internal/controller/v1alpha1/networkconfiguration_controller.go:93-305 | While the primary is silent a whole reconcile, deletions included, sends the same commands, leaves the same tables on the secondary, patches the same status and comes to the same verdict, maps and requeue as one whose only server is the secondary, under any fates there |
| `Failover.GetOrCreateAlike` | internal/services/kea/service.go:176-210 | The same for get-or-create |
| `Failover.LoopAlike` | internal/controller/v1alpha1/networkconfiguration_controller.go:332-382 | The same for the reservation loop |
| `Client.KeaClient.Send` | pkg/clients/keaclient/keaclient.go:98-171 | The loop over the URLs is the specified send: primary first, the secondary for every command the primary left unanswered, at most once each; BaseUrl is restored on every path, currentUrl names the peer that answered |
| `KeaService.ScanForId` | internal/services/kea/service.go:230-268 | The scan returns an id listed for the CIDR, and none only if no entry for it has a number |
| `KeaService.NextId` | internal/services/kea/service.go:153-172 | The scan returns one more than the largest id, at least 1 |
| `KeaService.ScanOptions` | internal/services/kea/service.go:315-367 | The option loops compute the last router and all DNS fields in order |
| `KeaService.ScanLeases` | internal/services/kea/service.go:512-554 | The loop returns the first newest matching lease, and the empty address exactly when none matches |
| `KeaService.ScanHosts` | internal/services/kea/service.go:447-471 | The scan is true exactly when some entry matches the MAC and, where asked, the subnet |
| `KeaService.ScanAddresses` | internal/services/kea/service.go:582-600 | The scan returns the address of the first entry that has one with that entry's subnet id, or 0 if it names none, and nothing exactly when no entry has an address |
| `KeaService.KeaOperations.GetOrCreateSubnet` | internal/services/kea/service.go:176-210 | The statements are the specified operation: same commands, same result |
| `KeaService.KeaOperations.CreateSubnet` | internal/services/kea/service.go:50-134 | As specified, for a given id and for a generated one |
| `KeaService.KeaOperations.GetSubnetInfo` | internal/services/kea/service.go:280-370 | As specified, for every shape of answer |
| `KeaService.KeaOperations.MacReservationExists` | internal/services/kea/service.go:432-497 | As specified, with the fallback query exactly when the first one settles nothing |
| `KeaService.KeaOperations.EnsureReservation` | internal/services/kea/service.go:399-429 | As specified |
| `KeaService.KeaOperations.GetLease` | internal/services/kea/service.go:501-604 | As specified, falling back to reservations exactly when no lease address was found |
| `Ipv4.PoolUpTo29` | internal/util/subnet/subnet.go:30-61 | For every network /0 to /29 the bytes never carry: gateway, start and end are network+1, network+4 and broadcast-1, strictly in order inside the network |
| `Ipv4.PoolAcceptance` | internal/util/subnet/subnet.go:52-55 | A pool is offered exactly for /0 to /29 and for the listed wrap-around cases of /30, /31 and /32 |
| `Ipv4.WrappedPoolOutside` | internal/util/subnet/subnet.go:42-55 | A pool offered after a wrap starts outside its own network |
| `Ipv4.BroadcastIsLast` | internal/util/subnet/subnet.go:30-35 | The bytewise or with the inverted mask is the last address of the block |
| `Ipv4.LessIsNumeric` | internal/util/subnet/subnet.go:65-75 | Bytewise order is numeric order |
| `Ipv4.IsIpLess` | internal/util/subnet/subnet.go:65-75 | The early-exit loop decides bytewise order |
| `Ipv4.CalculatePool` | internal/util/subnet/subnet.go:18-62 | The array computation yields the specified pool or refusal |
| `Ipv4.IpRoundTrip` | internal/util/subnet/subnet.go:57-61 | An address written as text parses back to itself |
| `Prefixes.IpTextExact` | internal/util/subnet/subnet.go:57-61 | A text parses to an address exactly if it is the text of that address |
| `Prefixes.MaskedIsBlockStart` | internal/util/subnet/subnet.go:19-31 | Bytewise masking rounds an address down to a multiple of the block size |
| `Prefixes.PrefixExact` | internal/util/subnet/subnet.go:18-28 | Exactly the texts "address/digits" with a length up to 32 are read as a prefix, as the masked network of that length |
| `Prefixes.PrefixRoundTrip` | internal/util/subnet/subnet.go:18-28 | A written prefix reads back as the block of 2^(32-n) addresses that holds the address |
| `Prefixes.PoolOfText` | internal/controller/v1alpha1/networkconfiguration_controller.go:221-246 | From text to text: for a prefix up to /29 the subnet4-add carries the texts of block start+1, +4 and block end-1 |
| `Prefixes.FilterOfText` | internal/controller/v1alpha1/networkconfiguration_controller.go:337-356 | For every prefix a lease address is kept exactly when it parses and lies in the same block as the prefix address |
| `Controller.WrittenPoolIsInside` | internal/controller/v1alpha1/networkconfiguration_controller.go:221-246 | Up to /29 the subnet4-add for a prefix carries a pool whose written ends parse, in order, with everything between inside the prefix and the gateway below it |
| `Reservations.PoolLeaseIsKept` | internal/controller/v1alpha1/networkconfiguration_controller.go:337-356 | A lease from the operator's own pool always passes the prefix filter |
| `Reservations.ReservedIsHeld` | internal/controller/v1alpha1/networkconfiguration_controller.go:332-382 | Under any fates no host is lost, every recorded (MAC, subnet) is reserved on some peer and every recorded address lies in the prefix |
| `Reservations.ReservationFollowsLease` | internal/controller/v1alpha1/networkconfiguration_controller.go:342-366 | An error-free loop records the subnet of each MAC's current lease and reports its address; the MAC's reservations are the old ones plus exactly that one where the subnet had none |
| `Reservations.ReservationWithoutLease` | internal/controller/v1alpha1/networkconfiguration_controller.go:372-378 | A MAC with neither lease nor reserved address gets exactly one reservation, without address, in the resolved subnet, unless it has one there |
| `Reservations.ReservationFollowsHost` | internal/controller/v1alpha1/networkconfiguration_controller.go:342-379 | A MAC without lease whose first addressed reservation is h: h's subnet is recorded (the resolved one if h is global), h's address is reported exactly when in the prefix, and for a placed h no reservation-add is sent for the MAC |
| `Reservations.LeaseOutsidePrefix` | internal/controller/v1alpha1/networkconfiguration_controller.go:345-362 | A current lease outside the prefix decides the subnet, but its address is neither reported nor reserved |
| `Reservations.LoopSends` | internal/controller/v1alpha1/networkconfiguration_controller.go:342-379 | An error-free loop sends, beside queries, only additions of wanted hosts that were missing |
| `Reservations.Conservation` | internal/controller/v1alpha1/networkconfiguration_controller.go:332-382 | Every MAC ends in exactly one of the error list and the subnet map, so the counts add up; addresses only for MACs in the subnet map |
| `Reservations.LoopCharacterised` | internal/controller/v1alpha1/networkconfiguration_controller.go:332-382 | Against a truthful server the loop is error free exactly when the wanted hosts can stand together, a condition without order; the result is then known in closed form |
| `Reservations.OrderIndependent` | internal/controller/v1alpha1/networkconfiguration_controller.go:332-382 | If one order of the MACs is error free every order is, with the same maps and hosts, even where addresses must be unique |
| `Reservations.SecondLoopIsQuiet` | internal/controller/v1alpha1/networkconfiguration_controller.go:342-379 | The loop run again, in any order, sends only queries and finds the same maps, also for addresses that came from reservations or a global host |
| `Reservations.CleanupRemovesExactly` | internal/controller/v1alpha1/networkconfiguration_controller.go:556-559 | Cleanup against a truthful server removes exactly the (listed MAC, resolved subnet) hosts |
| `Reservations.CleanupTouchesNothingElse` | internal/controller/v1alpha1/networkconfiguration_controller.go:556-559 | Under any fates the rest of each peer's table stays as it was, in order |
| `Reservations.CreateThenDelete` | internal/controller/v1alpha1/networkconfiguration_controller.go:543-561 | The loop followed by cleanup leaves the original hosts minus the listed pairs exactly when every added host went into the cleaned subnet |
| `Macs.NormalisationsAgree` | internal/controller/v1alpha1/networkconfiguration_controller.go:519-524 | The normalisation of extraction and the one of status building agree on every string |
| `Macs.ExtractMacs` | internal/controller/v1alpha1/networkconfiguration_controller.go:507-538 | The result lists the distinct valid MACs of the spec, each once, in an unspecified order |
| `MacText.SpellingAccepted` | internal/controller/v1alpha1/networkconfiguration_controller.go:519-527 | An address written with colons or dashes, in either case, padded or not, is accepted exactly with 6, 8 or 20 octets |
| `MacText.OneMacPerAddress` | internal/controller/v1alpha1/networkconfiguration_controller.go:519-528 | Two such spellings give one MAC exactly when they are of one address |
| `MacText.AcceptedIsSpelled` | internal/controller/v1alpha1/networkconfiguration_controller.go:524-527 | Every accepted MAC without dots is the colon spelling of an address |
| `MacText.DottedCountsTwice` | internal/controller/v1alpha1/networkconfiguration_controller.go:523-528 | The dotted form is accepted but not unified: a device listed in both forms is two MACs |
| `Controller.RowsAreExact` | internal/controller/v1alpha1/networkconfiguration_controller.go:385-425 | One status row per interface in order; reserved exactly when the MAC is valid and was reserved; an address only with a reservation |
| `Controller.ReadySound` | internal/controller/v1alpha1/networkconfiguration_controller.go:264-284 | Under any fates Ready=True is sent only if every valid MAC of the spec is reserved in its recorded subnet on some peer |
| `Controller.LongRequeueMeansSettled` | internal/controller/v1alpha1/networkconfiguration_controller.go:286-293 | The long requeue is chosen exactly when the object is configured and every MAC has an address |
| `Controller.ResolvedIdIsSound` | internal/controller/v1alpha1/networkconfiguration_controller.go:312-329 | For any failover pattern the details belong to the returned id, which is the given one or one listed for the prefix |
| `Controller.StaleIdRecovered` | internal/controller/v1alpha1/networkconfiguration_controller.go:312-329 | If one peer answers, lacks the given id and lists the prefix, its id comes back whatever happens to the second details query, and with details if that is answered |
| `Controller.IdKeptUnlessAbsent` | internal/controller/v1alpha1/networkconfiguration_controller.go:313-328 | The prefix is listed again exactly when the first query says the id is absent; otherwise, and if the listing fails, the given id stays |
| `Controller.ReportTwice` | internal/controller/v1alpha1/networkconfiguration_controller.go:566-643 | A report that was taken is not patched again, and nothing but status is written |
| `Controller.PutKeepsOthers` | internal/controller/v1alpha1/networkconfiguration_controller.go:566-572 | Setting a condition leaves conditions of other kinds as they were |
| `Controller.PutKeepsPlaces` | internal/controller/v1alpha1/networkconfiguration_controller.go:571-572 | No condition is lost, moved or doubled |
| `Controller.ReportKeeps` | internal/controller/v1alpha1/networkconfiguration_controller.go:566-643 | Under any refused patches: rows survive an update that brings none, a condition patch is sent exactly on a change, and the object changes only by patches taken |
| `Outcomes.TriageExactly` | internal/controller/v1alpha1/networkconfiguration_controller.go:101-196 | Exactly which objects are skipped, deleted, refused and claimed; all others are served |
| `Outcomes.ServedVerdictExactly` | internal/controller/v1alpha1/networkconfiguration_controller.go:206-227 | Exactly when a served object stops for a missing prefix, for want of MACs or for a prefix without pool |
| `Outcomes.EveryVerdictIsReported` | internal/controller/v1alpha1/networkconfiguration_controller.go:153-284 | With patches taken every verdict is reported: failures end with Ready false at the current generation, phase Error and a message naming exactly the MACs without reservation (or the cause), success with Ready true; rows follow the maps; skipped objects are untouched |
| `Outcomes.RequeueExactly` | internal/controller/v1alpha1/networkconfiguration_controller.go:193-293 | A reconcile comes back soon exactly for a missing or bad prefix, a subnet or reservation error, a failed finalizer update or a MAC still without address |
| `Outcomes.PhaseAgainstCondition` | internal/controller/v1alpha1/networkconfiguration_controller.go:199-227 | Phase and Ready condition of a served object agree, except exactly where the code writes the phase alone over an older condition |
| `Outcomes.NewGenerationIsAnnounced` | internal/controller/v1alpha1/networkconfiguration_controller.go:198-204 | The first patch for a generation not yet observed withdraws Ready |
| `Quiescence.NextReconcileIsQuiet` | internal/controller/v1alpha1/networkconfiguration_controller.go:198-293 | After a reconcile that set Ready, the next one, in any order, sends no Kea write and no patch and finds the same maps |
| `Quiescence.AnyOrderSameOutcome` | internal/controller/v1alpha1/networkconfiguration_controller.go:533-537 | A whole reconcile is order independent: same object, patches, maps, requeue, subnets and hosts |
| `Quiescence.ConfiguredExactly` | internal/controller/v1alpha1/networkconfiguration_controller.go:246-284 | Against a truthful server a claimed object is configured exactly when its wanted hosts are compatible |
| `Quiescence.SettlesInTwo` | internal/controller/v1alpha1/networkconfiguration_controller.go:190-293 | A new object is claimed, then configured, then left alone |
| `Quiescence.RowsShowSubnet` | internal/controller/v1alpha1/networkconfiguration_controller.go:259-267 | The rows of a configured object show the gateway and DNS of its subnet as Kea holds it; for a subnet just made, the gateway computed from the prefix |
| `Lifecycle.AddsUnderFinalizer` | internal/controller/v1alpha1/networkconfiguration_controller.go:190-196 | Over every life each reservation-add is sent while our finalizer is on the object |
| `Lifecycle.NeverGoneWithoutCleanup` | internal/controller/v1alpha1/networkconfiguration_controller.go:297-305 | Between a reservation-add and the object's disappearance there is always a cleanup |
| `Lifecycle.StepKeeps` | internal/controller/v1alpha1/networkconfiguration_controller.go:93-305 | Every user, controller, Kea and reconcile step keeps the finalizer invariant |
| `Lifecycle.CleanupAttemptsAll` | internal/controller/v1alpha1/networkconfiguration_controller.go:543-561 | Once the subnet is resolved, cleanup sends one deletion per valid MAC, whatever fails |
| `Lifecycle.CleanupNeedsSubnet` | internal/controller/v1alpha1/networkconfiguration_controller.go:544-555 | Without namespace or resolved subnet, deletion sends no reservation-del and changes no table |
| `Lifecycle.DeletionReleases` | internal/controller/v1alpha1/networkconfiguration_controller.go:297-305 | A reconcile of a deleted object removes our finalizer and is done, or comes back soon exactly when the update failed; no patch is sent |
| `Lifecycle.DeletedObjectGoes` | internal/controller/v1alpha1/networkconfiguration_controller.go:297-305 | Over any number of failed attempts: a deleted object held by nobody else disappears exactly when an attempt removes the finalizer, right after that attempt's cleanup |
| `Lifecycle.DeletedAndCleanedUp` | internal/controller/v1alpha1/networkconfiguration_controller.go:297-305 | From delete to disappearance against a truthful Kea: cleanup, then gone, and exactly the MACs' reservations in the subnet of the prefix removed |
| `Lifecycle.SkippedSendsNothing` | internal/controller/v1alpha1/networkconfiguration_controller.go:101-196 | An object that is neither served nor deleted causes no Kea command; other provider, missing namespace and other type leave it untouched |
| `Lifecycle.DeletionIgnoresTriage` | internal/controller/v1alpha1/networkconfiguration_controller.go:111-115 | A deleted object loses its MACs' reservations in the resolved subnet whatever its namespace type, strictness or finalizer |
| `Lifecycle.OtherProviderIsNeverReleased` | internal/controller/v1alpha1/networkconfiguration_controller.go:101-115 | A claimed object given another provider and deleted keeps our finalizer in every run without a further edit |
| `Reconciler.NetworkConfigurationReconciler.SetCondition` | internal/controller/v1alpha1/networkconfiguration_controller.go:566-587 | Updates by type, and patches only on a change |
| `Reconciler.NetworkConfigurationReconciler.UpdateStatus` | internal/controller/v1alpha1/networkconfiguration_controller.go:604-643 | The changed flag is set exactly when the status differs |
| `Reconciler.NetworkConfigurationReconciler.ResolveInfo` | internal/controller/v1alpha1/networkconfiguration_controller.go:312-329 | As specified |
| `Reconciler.NetworkConfigurationReconciler.ProcessReservations` | internal/controller/v1alpha1/networkconfiguration_controller.go:332-382 | The loop fills the maps and the error list as specified |
| `Reconciler.NetworkConfigurationReconciler.BuildRows` | internal/controller/v1alpha1/networkconfiguration_controller.go:385-425 | The loop appends the specified row for each interface |
| `Reconciler.NetworkConfigurationReconciler.CleanupReservations` | internal/controller/v1alpha1/networkconfiguration_controller.go:543-561 | The loop deletes as specified, for some order of the MACs |
| `Reconciler.NetworkConfigurationReconciler.Reconcile` | internal/controller/v1alpha1/networkconfiguration_controller.go:93-294 | The statements carry out the specified reconcile, for the order in which the MACs were ranged over |

## Left out

- HTTP, TLS, URL building and JSON decoding: a command is a value and an answer a typed, possibly malformed, document. A body that cannot be parsed is one of the fates.
- Overlapping `Send` calls of one client: the code changes BaseUrl without a lock, so its restoration is stated for calls that do not overlap. The concurrent machine talks to the server directly.
- Pointer-wrapped JSON values and fractional ids: ids are integers.
- Error texts: only what the code inspects in them is kept (no matching subnet, something is absent, anything else).
- IPv6 text and IPv4-mapped IPv6 prefixes: only dotted-quad addresses and prefixes parse.
- Letters outside ASCII: lower-casing is modelled for ASCII, which is all a valid MAC can hold.
- The Kubernetes client, watches and caches: a reconcile reads the object as it is when it begins; finalizers are flags, conditions are updated by type, provider matching is an enumeration, and the NetworkNamespace is an input.
- Users who remove our finalizer by hand: the lifecycle assumes nobody does.
- Leases of one Kea server may change at any time between reconciles; quiescence is stated for an unchanged server.
- Rejection of a subnet or host for reasons other than duplicates is a fate (Refusing), not a table rule.
- `buildSuccessMessage`, logging, deprecation warnings, requeue durations, concurrency settings and configuration loading: they would add only easy members.
