# Verification of nauti-fabric

This project models the parts of `nauti-fabric` that decide things: who holds a
lease, which locks are taken in which order, which slot answers a plan request,
what a response body decodes to, how many entropy bytes a guest may draw, where
a PCI device is listed, and what an RPC session does to the fabric. Sockets,
processes, files and hardware are parameters. Check everything with
`dafny verify dfyconfig.toml`.

## How the model is laid out

**The lease protocol, in two layers.**

* `Interleaving.dfy` is the fabric under any number of threads. Every lock's
  critical section is a stage of its own; entering the lock and running the
  section are separate steps, so `release` has two lease sections with a detach
  between them, `attach` keeps the lease lock across the whole adapter call, and
  `lease_exclusive` looks the resource up before it locks the table. What the
  clock, the host and the walk order of a hash map bring is chosen anew at each
  step. A history records grants, deadlines, releases, launches and removals.
  On it rest `LeaseSafety.dfy` (exclusion, lease ids), `LockOrder.dfy` (mutual
  exclusion, no deadlock), `Completion.dfy` (every call ends), `AttachSafety.dfy`,
  `VmLaunches.dfy` and `Orphans.dfy`.
* `FabricSpec.dfy` says what one whole call does at one instant, `Fabric.dfy` has
  the classes whose methods update maps in place and are proved to do just that.
  `FabricAnswers.dfy` says when each call succeeds and what it leaves, from the
  resource, the lease and the host alone; `FabricRuns.dfy` and `StoreRuns.dfy` prove
  what runs of whole calls keep. `Guards.dfy` says which tests a thread has passed.
  `Solo.dfy` ties the layers together: a call whose sections run uninterrupted
  does what the specification says.

**The planner** (`Planner.dfy`, `PlannerProofs.dfy`), **the HTTP response parser
and chunk decoder** (`Http.dfy`, `Chunked.dfy`, `Numerals.dfy`), **the virtio-rng backend**
(`Rng.dfy`, `RngRuns.dfy`), **PCI attribution** (`Topology.dfy`) and **the agent
RPC** (`Frames.dfy`, `Rpc.dfy`, `RpcEffects.dfy`, `Session.dfy`, `TtlRuns.dfy`) each
have the code in its own form, and beside it the lemmas that give its result a meaning.
`FabricTypes.dfy`, `FabricState.dfy`, `Store.dfy` and `Order.dfy` hold what they share.

## Assumptions

* Lease ids do not wrap 64 bits, `Instant + ttl` does not overflow and
  `Instant - older_than` does not underflow.
* The monotone clock never runs back, and a sleep lasts at least as long as asked.
* An entropy source returns at most the count it was asked for.
* The JSON codec reads back what it wrote. Nothing else is assumed of it.
* One instance of the Cloud Hypervisor adapter and one of the store adapter are
  registered, under any names; no lock is poisoned.
* `f64` arithmetic is exact (it is modelled over `real`), so no score is NaN.
* UTF-8 checking of a response head is a parameter of the parser.

## Where the code and its documentation differ

* `unregister`, `refresh_local` and `evict_stale_nodes` are said never to orphan a
  lease. `unregister` gives up the lease lock between its check and its removal, and
  `lease_exclusive` the registry between its lookup and its grant. So the promise
  holds of whole calls (`FabricRuns.LeasedMeansRegistered`), fails when the two calls
  overlap (`Orphans.UnregisterRacesLease`), and holds of a run if and only if each
  removal still finds its resource unleased and each grant still finds its resource
  registered (`Orphans.NeverOrphansIffClean`).
* `dechunk` prefers an absent fragment to a truncated one. A chunked body that is
  cut between its chunks is handed on shorter, with no sign of it
  (`Http.ChunkedResponseIsRead`); the two bytes after a chunk's data are skipped
  unread, and a size may carry a leading plus (`Chunked.LeadingPlusIsAccepted`).
* The end of a head is the first CRLF blank line anywhere, even behind an earlier
  bare one (`Http.BareHeadIsFoundIff`).
* A stream cut inside a frame header counts as a clean end of the session
  (`Session.SessionRefinesFold`); the writer sends frames the reader refuses
  (`Frames.FrameRoundTrip`).
* A TTL bound does not look at renewals (`TtlRuns.RenewalEscapesTheBound`). Leases stay
  within it if and only if every renewal that finds its lease asks for a deadline
  within the bound of the grant (`TtlRuns.BoundedIffRenewalsInside`).

## Model

| member | source | states |
|---|---|---|
| LeaseSafety.AtMostOneLiveLease | nauti-fabric/src/lib.rs:502-536 | in every interleaving of any number of threads, when a lease of a resource is granted every earlier one has been released or has passed its latest deadline, so no two are ever live at one instant |
| LeaseSafety.GrantedIdIsNew | nauti-fabric/src/lib.rs:522-534 | a granted id is greater than every id granted before, and granting it changes no earlier grant |
| LeaseSafety.RemovalIsJustified | nauti-fabric/src/lib.rs:576-630 | a lease leaves the table only in the release section that names its very id, or in a prune or grant after its deadline: a stalled release never removes another holder's lease |
| LeaseSafety.DeadForever | nauti-fabric/src/lib.rs:552-630 | an id that has left the table is never extended, released or granted again, and each section that a renewal, an attach or a release presents it to answers LeaseNotFound, however the run goes on |
| AttachSafety.AttachWorksOnAStandingLease | nauti-fabric/src/lib.rs:552-574 | while an adapter attaches, the lease it attaches for is in the table, and no other thread is inside an attach or writes the lease table |
| AttachSafety.DetachNeverMismatches | nauti-fabric/src/store.rs:207-220 | in every interleaving the store's detach is only ever asked for the resource its lease id was granted for: its mismatch branch is dead |
| Guards.GrantFollowsAFreeLookup | nauti-fabric/src/lib.rs:502-521 | in every interleaving a thread about to grant a lease looked the resource up in this very call and found it registered, available and exclusive |
| Guards.LookupDecides | nauti-fabric/src/lib.rs:508-514 | a lookup lets the lease through exactly for such a resource and otherwise answers which test failed |
| Guards.RecordFollowsALaunchOrAProbe | nauti-fabric/src/vmm/cloud_hypervisor.rs:508-541 | in every interleaving a thread about to record a VM launched that VM in this very call, which is on the books, or found it running when it probed |
| Guards.LaunchDecides | nauti-fabric/src/vmm/cloud_hypervisor.rs:523-541 | a launch is on the books and goes on to the record exactly when kernel, rootfs and any network are there and the launcher succeeds |
| Guards.CheckAndProbeDecide | nauti-fabric/src/vmm/cloud_hypervisor.rs:495-518 | a VM known under its name is neither probed nor launched, and a running one is not launched |
| Guards.RemovalDecides | nauti-fabric/src/vmm/cloud_hypervisor.rs:442-453 | a removal is on the books and the VM forgotten exactly when the launcher reports it |
| LockOrder.RunKeepsApart | nauti-fabric/src/lib.rs:301-309 | no two threads ever hold conflicting locks |
| LockOrder.OrderIsKept | nauti-fabric/src/lib.rs:350-370 | every critical section asks for a lock above all those its thread holds |
| LockOrder.NeverDeadlocked | nauti-fabric/src/lib.rs:538-613 | in any state with an unfinished call some unfinished thread can step at once, without waiting for a lock anyone holds |
| Completion.EveryStepDescends | nauti-fabric/src/lib.rs:406-459 | every step of an unfinished call, whoever takes it, lowers a measure of what all calls have left to do |
| Completion.Drains | nauti-fabric/src/lib.rs:311-682 | from any state a run without new calls brings every thread to the end of its call |
| VmLaunches.AtMostOneVm | nauti-fabric/src/vmm/cloud_hypervisor.rs:434-543 | in every interleaving of attaches and reconciles that present a resource under one VM name, successful launches exceed successful removals by at most one |
| Orphans.UnregisterRacesLease | nauti-fabric/src/lib.rs:350-370 | from any state in which a resource is free, an overlapping unregister and lease can both succeed and leave a standing lease on a resource that is gone |
| Orphans.NeverOrphansIffClean | nauti-fabric/src/lib.rs:350-370 | for every run of any number of threads from a state without orphans: no state of it has a leased resource that is not registered if and only if each removal finds its id unleased and each grant finds its id registered |
| Orphans.StepOrphansIffUnclean | nauti-fabric/src/lib.rs:502-536 | a single step of any thread in any state orphans a lease exactly when it is a removal of a leased id or a grant of one that is gone |
| Orphans.NoRaceNoOrphan | nauti-fabric/src/lib.rs:350-370 | what callers can arrange for: a run in which no grant runs between an unregister's check and its removal of that id, or after it, never orphans a lease |
| Solo.LeaseAlone | nauti-fabric/src/lib.rs:502-536 | the lookup and grant sections, uninterrupted, give the answer and the state of the whole-call lease_exclusive |
| Solo.RenewAlone | nauti-fabric/src/lib.rs:619-630 | the same for renew_lease |
| Solo.UnregisterAlone | nauti-fabric/src/lib.rs:350-370 | the same for unregister |
| Solo.ReleaseAlone | nauti-fabric/src/lib.rs:576-613 | the same for the up to six sections of release |
| Solo.AttachAlone | nauti-fabric/src/lib.rs:552-574 | the same for attach through each kind of adapter |
| Solo.RefreshAlone | nauti-fabric/src/lib.rs:406-459 | the same for the state refresh_local leaves, in whatever order the ids that went are walked |
| Solo.EvictAlone | nauti-fabric/src/lib.rs:647-682 | the same for the state evict_stale_nodes leaves, in whatever order the registry is walked |
| Solo.RegisterAlone | nauti-fabric/src/lib.rs:312-318 | the same for register |
| Solo.HeartbeatAlone | nauti-fabric/src/lib.rs:635-640 | the same for heartbeat |
| Solo.RegisterAdapterAlone | nauti-fabric/src/lib.rs:462-468 | the same for register_adapter |
| Solo.ReconcileAlone | nauti-fabric/src/vmm/cloud_hypervisor.rs:434-456 | a reconcile on its own forgets every VM when the launcher removes them, and none when it does not |
| Fabric.StoreAdapter.Attach | nauti-fabric/src/store.rs:183-205 | a resolved store with its directory in place is recorded under the lease id and described; a failure leaves the map alone |
| Fabric.StoreAdapter.Detach | nauti-fabric/src/store.rs:207-220 | removes the entry of the lease, puts a foreign one back and refuses, and accepts an unknown lease |
| Fabric.CloudHypervisorAdapter.RecordManaged | nauti-fabric/src/vmm/cloud_hypervisor.rs:569-581 | records the VM under its resource id and nothing else |
| Fabric.CloudHypervisorAdapter.Attach | nauti-fabric/src/vmm/cloud_hypervisor.rs:469-551 | the in-place attach answers and keeps what the specification decided by FabricAnswers.VmAttachDecides says, logs a launch exactly for a new VM, and says "true" in the details exactly for a logged launch |
| Fabric.CloudHypervisorAdapter.Reconcile | nauti-fabric/src/vmm/cloud_hypervisor.rs:434-456 | reports one outcome per managed VM and keeps exactly those whose removal failed |
| Fabric.Fabric.Register | nauti-fabric/src/lib.rs:312-318 | replaces the entry under the resource's id and nothing else |
| Fabric.Fabric.Unregister | nauti-fabric/src/lib.rs:350-370 | refuses a leased id, otherwise removes it and says whether it was there |
| Fabric.Fabric.RefreshLocal | nauti-fabric/src/lib.rs:406-459 | the in-place loops end in the specified registry, with the specified three lists |
| Fabric.Fabric.Heartbeat | nauti-fabric/src/lib.rs:635-640 | moves the node's beat to the present |
| Fabric.Fabric.EvictStaleNodes | nauti-fabric/src/lib.rs:647-682 | the in-place loop drops the specified beats and resources and returns the stale nodes |
| Fabric.Fabric.LeaseExclusive | nauti-fabric/src/lib.rs:502-536 | each refusal in its order, or a new id for the resource with its deadline, after lapsed leases are pruned |
| Fabric.Fabric.FindAvailable | nauti-fabric/src/lib.rs:538-550 | exactly the resources that satisfy the request and, if exclusive, have no table entry |
| Fabric.Fabric.Attach | nauti-fabric/src/lib.rs:552-574 | each refusal in its order; on success the adapter's own state and the attachment record |
| Fabric.Fabric.Release | nauti-fabric/src/lib.rs:576-613 | the attachment record goes first, a failing detach keeps the lease, success removes it |
| Fabric.Fabric.RenewLease | nauti-fabric/src/lib.rs:619-630 | prunes, then moves the deadline of the very lease presented, or refuses |
| FabricAnswers.LeaseAnswers | nauti-fabric/src/lib.rs:502-536 | a lease is granted if and only if the resource is registered, available, exclusive and not held by an unlapsed lease; each error is answered exactly when its own test is the first to fail; the entry stands until now plus ttl and only lapsed others go |
| FabricAnswers.RenewAnswers | nauti-fabric/src/lib.rs:619-630 | a renewal succeeds if and only if this very lease is in the table and unlapsed; it moves that deadline to now plus ttl and prunes |
| FabricAnswers.RegistryAnswers | nauti-fabric/src/lib.rs:312-370 | a registered entry is found under its id; an unregister removes an unleased one and says whether it was there, and a table entry prevents it; no other id is touched |
| FabricAnswers.FindAvailableIsExact | nauti-fabric/src/lib.rs:245-257 | what is offered is exactly what is registered, available, of the kind, capacity, node and attributes asked for, exclusive if asked for, and without a table entry if exclusive |
| FabricAnswers.VmAttachDecides | nauti-fabric/src/vmm/cloud_hypervisor.rs:469-551 | a VM is launched if and only if it is a located device with a socket, neither known under its name nor running, with kernel, rootfs and any network, and the launch succeeds; it is taken over if and only if it is such a device and known or running; it is recorded under its socket and name then and nothing is recorded otherwise |
| FabricAnswers.VmAttachRefusals | nauti-fabric/src/vmm/cloud_hypervisor.rs:469-540 | the error names the first thing that is missing, in the order they are looked at |
| FabricAnswers.VmDetailsTell | nauti-fabric/src/vmm/cloud_hypervisor.rs:593-610 | the four details of a VM, with "true" exactly for a launch |
| FabricAnswers.StoreDetailsTell | nauti-fabric/src/store.rs:191-204 | the four details of a store, each from its own attribute |
| FabricAnswers.AttachAnswers | nauti-fabric/src/lib.rs:552-574 | an attach succeeds if and only if the resource is registered, this lease stands, the adapter is registered and takes the resource; it is on record then with what the adapter tells and keeps, and a refusal changes nothing |
| FabricAnswers.ReleaseAnswers | nauti-fabric/src/lib.rs:576-613 | after any run a release succeeds if and only if the table has this very lease, lapsed or not; entry, attachment record and store entry go, and nothing else |
| FabricAnswers.HeartbeatsAreTheLastHeard | nauti-fabric/src/lib.rs:635-664 | over every run the heartbeats kept are, node by node, the last ones called, each at its own time, less those an eviction found too old |
| FabricAnswers.EvictsTheSilent | nauti-fabric/src/lib.rs:647-682 | after any run an eviction lists exactly the nodes last heard of before the bound and takes exactly their unleased resources |
| FabricAnswers.BeatProtects | nauti-fabric/src/lib.rs:635-682 | a heartbeat protects a node and its resources from every later eviction whose bound covers the time since, whatever is called in between |
| FabricRuns.LeasedMeansRegistered | nauti-fabric/src/lib.rs:350-370 | over every run of whole calls each lease-table key is registered under its own id, and its entry is a lease that was granted for it |
| FabricRuns.RefreshIsExact | nauti-fabric/src/lib.rs:406-459 | a refresh with D ends with ids(D) plus the leased ids D lacks; the three lists are exactly the differences, each id once and in order; survivors keep their entry; a second refresh with D only repeats what is blocked |
| FabricRuns.NewcomersAreTheLast | nauti-fabric/src/lib.rs:424-430 | a newcomer discovered more than once is registered as its last entry |
| FabricRuns.EvictionIsExact | nauti-fabric/src/lib.rs:647-682 | after any run, eviction removes exactly the unleased resources of nodes whose last beat is too old, touches no lease and leaves no lease without its resource |
| FabricRuns.OfferedCanBeLeased | nauti-fabric/src/lib.rs:502-550 | after any run, an exclusive resource that find_available returns can be leased in that same state, until the deadline asked for |
| FabricRuns.LeasableIffOfferedOrLapsed | nauti-fabric/src/lib.rs:502-550 | after any run, a registered exclusive resource that satisfies a request can be leased if and only if find_available returns it or a lapsed lease on it is yet unpruned |
| FabricRuns.LeaseStandsForItsTtl | nauti-fabric/src/lib.rs:502-536 | a grant, and a renewal whatever the deadline before it, makes the lease renewable and the resource unavailable to others for exactly the ticks asked for |
| FabricRuns.ReleaseFreesTheResource | nauti-fabric/src/lib.rs:576-630 | after a successful release the resource can be leased at once, and the old lease can no longer release, renew or attach |
| FabricRuns.ReleaseUndoesStoreAttach | nauti-fabric/src/store.rs:183-220 | an attach through the store followed by the release clears both maps and the table entry and leaves everything else as it was |
| FabricRuns.SecondVmAttachLaunchesNothing | nauti-fabric/src/vmm/cloud_hypervisor.rs:493-506 | whatever the host answers by then, a repeated attach of a VM resource launches nothing and changes nothing |
| StoreRuns.LiveIsAttachedAndUnreleased | nauti-fabric/src/store.rs:183-220 | with the store the only adapter, over every run its map holds exactly the leases attached and not released, each with the resource its id was granted for, and a release succeeds exactly for a lease in the table |
| StoreRuns.RecordsAgreeIffNonePruned | nauti-fabric/src/lib.rs:552-613 | the fabric's own attachment records name the same leases as the store's map if and only if no attached lease has been pruned |
| StoreRuns.ReleaseDetachesIffStoreAttachedLast | nauti-fabric/src/lib.rs:576-613 | with any adapters, a successful release clears the store's entry if and only if the store is the adapter recorded last for that resource |
| Store.FromResource | nauti-fabric/src/store.rs:71-112 | a resolved store belongs to the resource, which is storage; an NFS one has its export and a virtio-fs one its socket |
| Store.ResolvesExactly | nauti-fabric/src/store.rs:71-112 | a resource resolves if and only if it is storage of a known kind with its path, and its export or socket if its kind needs one; each part is that of its own attribute or default |
| Store.RefusesByTheFirstFault | nauti-fabric/src/store.rs:71-103 | the error names the first part that is wrong or missing |
| Store.JobInput | nauti-fabric/src/store.rs:114-135 | what a job opens, what the VMM is told and how the kind is named follow from the attributes; a bind and a virtio-fs store of one path are the same path |
| PlannerProofs.LastBestIsLastBest | nauti-fabric/src/plan.rs:410-419 | the slot chosen on a host serves, no serving slot has more headroom, and later ones have less |
| PlannerProofs.FoundIffSomeServes | nauti-fabric/src/plan.rs:488-501 | a slot is found exactly when one serves the role |
| PlannerProofs.ServesExactly | nauti-fabric/src/plan.rs:203-211 | a slot takes a role if and only if it is healthy and lists the role, or lists none and has a model |
| PlannerProofs.RttIsTheEntry | nauti-fabric/src/plan.rs:285-287 | a round trip is known if and only if the matrix has a measured entry from the one to the other |
| PlannerProofs.LatencyNeverChoosesTheSlot | nauti-fabric/src/plan.rs:302-307 | best_slot and best_slot_scored choose the same slot of a host, whatever the round trip |
| Planner.MonolithicPlan | nauti-fabric/src/plan.rs:533-567 | the loop over the hosts computes the first best offer in key order |
| PlannerProofs.FirstBestIsWinner | nauti-fabric/src/plan.rs:533-556 | the walk ends with an offer exactly when some host makes one; it beats every other, an equal one on a lesser key included |
| PlannerProofs.MonolithicIsOptimal | nauti-fabric/src/plan.rs:533-567 | the planner answers exactly when some unlocked host other than the asker has a serving slot; the pair it names has at least the headroom, less 512 MiB for each measured millisecond, of every eligible pair, ties going to the least host key and then the last slot; the fragment carries that slot's name, model, resource and round trip, and says so |
| PlannerProofs.HeadroomIsWorthTheRoundTrip | nauti-fabric/src/plan.rs:297-307 | between measured links no eligible slot has more than 512 MiB over the named one for each millisecond it is farther; an unmeasured link costs nothing |
| PlannerProofs.FartherIsNeverNamed | nauti-fabric/src/plan.rs:297-307 | a host is never named when another has a serving slot with as much headroom as any of its own over a shorter measured link |
| Order.LessIsLexicographic | nauti-fabric/src/plan.rs:533-556 | keys are walked in lexicographic order: a proper prefix first, else by the first character that differs |
| PlannerProofs.HeadPlanDecides | nauti-fabric/src/plan.rs:643-735 | for a valid ask plan_by_kind("monolithic") is head_plan; it refuses exactly when no unlocked host has a serving slot, names the asker exactly when the asker has one, and reports only the matrix's own round trip |
| PlannerProofs.LocalAnswerIsBest | nauti-fabric/src/plan.rs:710-726 | a local answer is the asker's own slot with the most headroom, the last of equals, without a round trip |
| PlannerProofs.AsksAreValidatedFirst | nauti-fabric/src/plan.rs:643-699 | every entry point refuses the same asks in the same way, the missing field first, and only then an unknown planner |
| PlannerProofs.RefusalTellsWhatIsThere | nauti-fabric/src/plan.rs:609-639 | a refusal names the locked hosts in order and counts each unhealthy slot that lists the role once, over all hosts; without hosts it names nothing |
| PlannerProofs.FederatedIsTheLocalStep | nauti-fabric/src/plan.rs:573-590 | the per-node planner answers exactly the asks the head answers locally, with the same slot |
| PlannerProofs.SameOffersSameAnswer | nauti-fabric/src/plan.rs:710-735 | the fragment depends on the view only through what each host offers the asker |
| PlannerProofs.LockedHostIsInvisible | nauti-fabric/src/plan.rs:488-501 | deleting a locked host leaves the whole fragment unchanged, reason text included |
| PlannerProofs.NonServingSlotDoesNotInterfere | nauti-fabric/src/plan.rs:203-211 | so does deleting a slot that does not serve the role |
| PlannerProofs.OtherRowsDoNotInterfere | nauti-fabric/src/plan.rs:285-287 | so does changing the latency rows of other origins |
| PlannerProofs.LoserDoesNotInterfere | nauti-fabric/src/plan.rs:533-567 | so does replacing a losing host, or adding one, by a host that still loses |
| Chunked.FindIsFirst | nauti-fabric/src/plan.rs:919-923 | the search finds an occurrence at or before every occurrence |
| Chunked.Dechunk | nauti-fabric/src/plan.rs:927-948 | the loop ends on every input, with the decoding of the body |
| Chunked.TruncationKeepsWholeChunks | nauti-fabric/src/plan.rs:927-948 | on any truncation of any chunked message (section 7.1 of RFC 9112), each size written as a hexadecimal numeral of its chunk's length, the decoder returns exactly the concatenation of the chunks whose data is wholly present |
| Chunked.DecoderInvertsEncoder | nauti-fabric/src/plan.rs:927-948 | it inverts the chunked coding for all non-empty chunks, any extensions, any case and leading zeros of a size, and any trailer |
| Chunked.DigitsReadNumerals | nauti-fabric/src/plan.rs:934-936 | the number reader accepts exactly the numerals of the radix within its range, as division and remainder spell them in the digit tables, and reads the number they stand for |
| Chunked.WrittenSizeIsRead | nauti-fabric/src/plan.rs:934-936 | every size a word can hold is read back as it is written, in either case and behind any zeros |
| Chunked.SizeLineReads | nauti-fabric/src/plan.rs:931-936 | a size line reads as the size it shows, whatever blanks are around it and whatever follows a semicolon |
| Chunked.SizeLineParts | nauti-fabric/src/plan.rs:931-936 | and a line has a size only if it shows one in this way |
| Chunked.BadChunkEndsTheBody | nauti-fabric/src/plan.rs:925-948 | a chunk whose size line is malformed ends the decoding: the chunks before it are kept, it and what follows are dropped |
| Chunked.LeadingPlusIsAccepted | nauti-fabric/src/plan.rs:931-936 | a size behind one plus reads as the size itself, and behind two as malformed, whatever the extension |
| Http.ReadHeaders | nauti-fabric/src/plan.rs:894-899 | the loop over the lines leaves each name with the value of its last line |
| Http.ParseHttpResponse | nauti-fabric/src/plan.rs:883-909 | computes the parse on every input |
| Http.HeadIsFound | nauti-fabric/src/plan.rs:912-917 | a head of unbroken non-empty lines ends at its own blank line, whatever body follows |
| Http.ParserReadsTheResponse | nauti-fabric/src/plan.rs:883-909 | for every well-formed head and any body the parser returns the status its code spells in decimal, the headers, each value without the white space around it, and the body, decoded exactly when the fields say so |
| Http.HeaderIsLastValue | nauti-fabric/src/plan.rs:894-899 | a header is the value of the last field with its name, in whatever case the name was sent |
| Http.ChunkedIffSaidSo | nauti-fabric/src/plan.rs:900-903 | the body is taken for chunked if and only if the last transfer-encoding field mentions chunked, both in letters of either case |
| Http.ChunkedResponseIsRead | nauti-fabric/src/plan.rs:883-948 | a chunked response cut anywhere in its body yields the chunks that arrived whole |
| Http.CutHeadIsRefused | nauti-fabric/src/plan.rs:883-917 | a response cut anywhere in its head is refused |
| Http.BareHeadIsFoundIff | nauti-fabric/src/plan.rs:912-917 | a head ended by a bare blank line is split there if and only if no CRLF blank line occurs anywhere in the response |
| Rng.RngBackend.constructor | nauti-fabric/src/vhost/rng.rs:121-130 | a backend starts a window now, with a full quota |
| Rng.RngBackend.ServeOne | nauti-fabric/src/vhost/rng.rs:170-213 | one request: each refusal in its order, the window renewed by reset or sleep, the bytes taken from the quota and the entry used |
| Rng.RngBackend.ProcessRequests | nauti-fabric/src/vhost/rng.rs:157-216 | a batch stops at its first failing request; the entries of those before it are in the used ring, in order |
| RngRuns.StopsAtFirstFault | nauti-fabric/src/vhost/rng.rs:157-216 | exactly the requests before the first one that is malformed or whose source fails are served, and the answer is that fault: the timer error cannot occur |
| RngRuns.ReturnedInOrder | nauti-fabric/src/vhost/rng.rs:211-213 | the used entries are those of the served requests from first to last, each with its head and length, but for those the ring does not take |
| RngRuns.ValidateDecides | nauti-fabric/src/vhost/rng.rs:102-110 | a period is valid if and only if it is 1 to 65536 ms |
| RngRuns.LengthsAreFair | nauti-fabric/src/vhost/rng.rs:196-209 | each length is exactly the least of the descriptor, what is left of the window when its request is reached, and what the source has; it is taken off the window for the next request, and is not zero where a non-empty descriptor could be served; the quota stays between zero and max_bytes |
| RngRuns.RenewedExactlyAfterAPeriod | nauti-fabric/src/vhost/rng.rs:180-195 | a window is renewed on arrival exactly when a full period has passed since it began, truncation to milliseconds notwithstanding, and a request sleeps exactly when it comes earlier and nothing is left |
| RngRuns.WindowsAreApart | nauti-fabric/src/vhost/rng.rs:180-195 | successive windows start at least one period apart, in the reset and in the sleep branch |
| RngRuns.RateBound | nauti-fabric/src/vhost/rng.rs:157-216 | over any run of batches and any interval of L ms the bytes served are at most (L / period_ms + 2) * max_bytes |
| RngRuns.BoundIsReached | nauti-fabric/src/vhost/rng.rs:157-216 | for every valid period, every positive quota and every L some run from a fresh backend reaches that bound exactly |
| Topology.Discover | nauti-fabric/src/topology.rs:61-125 | the loops over the table, the unassigned list and the nodes end in the specified node list |
| Topology.DevicesLandOnTheFirstNode | nauti-fabric/src/topology.rs:80-124 | for any node list every node keeps its facts and lists the devices local to it, in order, on the first node with that index; only the very first node lists more, behind its own; a node is made up only when none was enumerated |
| Topology.FirstNodeTakesTheRest | nauti-fabric/src/topology.rs:105-124 | the very first node lists its own devices, then those local to no node, then those local to an index no node has, by index; without any node these make up one |
| Topology.DevicesAreConserved | nauti-fabric/src/topology.rs:61-125 | the multiset of all listed devices is the multiset of those found, for any node list: duplicate or missing indices, or none at all |
| Frames.WriteFrame | nauti-fabric/src/rpc.rs:144-153 | appends one little-endian frame, or nothing when the length does not fit 32 bits |
| Frames.ReadFrame | nauti-fabric/src/rpc.rs:155-173 | takes one frame off the stream, or fails as the header, the length, the body and the decoder decide |
| Frames.FrameLayout | nauti-fabric/src/rpc.rs:144-153 | a frame is its body's length in four bytes, the least significant first, and the body; it can be sent exactly when the length fits |
| Frames.FrameRoundTrip | nauti-fabric/src/rpc.rs:144-173 | a frame comes back with the rest of the stream untouched exactly when its value encodes to at most 16 MiB, and is refused as too large otherwise |
| Frames.CutKeepsWholeFrames | nauti-fabric/src/rpc.rs:155-173 | any cut of concatenated frames gives back exactly the values whose frames are whole |
| Frames.StreamRoundTrip | nauti-fabric/src/rpc.rs:144-173 | concatenated frames give back the sequence written |
| Session.Dispatch | nauti-fabric/src/rpc.rs:177-195 | over a live fabric each request has the effect and the response that the RpcEffects lemmas state |
| Session.AnswerOne | nauti-fabric/src/rpc.rs:255-264 | a request is dispatched when the provider allows it, and answered with the rejection otherwise |
| RpcEffects.LeaseEffect | nauti-fabric/src/rpc.rs:182-184 | a lease request is answered Leased if and only if the resource is registered, available, exclusive and not held; the entry stands for the seconds asked, and each error is answered for its own test |
| RpcEffects.RenewEffect | nauti-fabric/src/rpc.rs:187-189 | a renewal is answered Leased if and only if this lease stands, whose deadline it moves to the seconds asked from now |
| RpcEffects.ReleaseEffect | nauti-fabric/src/rpc.rs:186-186 | after any run a release is answered Released if and only if the table has this very lease, which is gone then with its attachment record; anything else is answered LeaseNotFound and changes nothing |
| RpcEffects.AttachEffect | nauti-fabric/src/rpc.rs:185-185 | an attach is answered Attached if and only if the resource is registered, the lease stands and a registered adapter takes it; it is on record then |
| RpcEffects.InventoryEffect | nauti-fabric/src/rpc.rs:180-180 | after any run the inventory is exactly the registered resources |
| RpcEffects.FindEffect | nauti-fabric/src/rpc.rs:181-181 | a query is answered with exactly the resources that fit it and are free |
| RpcEffects.HeartbeatEffect | nauti-fabric/src/rpc.rs:190-193 | a heartbeat protects the node and its resources from an eviction within its bound |
| RpcEffects.SessionIsARun | nauti-fabric/src/rpc.rs:244-267 | every session is a run of whole calls, so whatever holds over those holds after every session |
| RpcEffects.GrantedThenReleased | nauti-fabric/src/rpc.rs:177-195 | in every session that is granted a lease and later releases it, whoever does what in between and after, the release is answered Released if and only if the table still has the lease; then it is gone, the resource can be leased again, and every later renew, attach or release of it is answered LeaseNotFound |
| RpcEffects.ReleasedIsOver | nauti-fabric/src/rpc.rs:177-195 | the same for any release answered Released, after any run |
| RpcEffects.AuthorizeDecides | nauti-fabric/src/rpc_auth.rs:192-213 | a time-bound provider rejects exactly the lease requests under its minimum or over its maximum, with the bound they break; the open one rejects nothing |
| Session.Accept | nauti-fabric/src/rpc.rs:235-273 | the accept loop, over live objects, leaves the bytes, the fabric and the ending of the specified session |
| Session.ServeIsFold | nauti-fabric/src/rpc.rs:244-267 | over any bytes whatever the session answers exactly the requests they frame, one response each and in order, as folding authorization and dispatch over the fabric does |
| Session.SessionRefinesFold | nauti-fabric/src/rpc.rs:144-267 | for requests of at most 16 MiB, cut anywhere, it serves exactly the wholly sent ones |
| Session.ServeTurns | nauti-fabric/src/rpc.rs:244-267 | the session is its turns one after the other, so it may be interleaved with the peer's calls |
| Session.BadFrameEndsTheSession | nauti-fabric/src/rpc.rs:246-253 | a frame that decodes to no request, or is too large, ends the session with that error: what came before is served, it reaches neither provider nor fabric, and nothing behind it is read |
| Session.CallsAreTheFold | nauti-fabric/src/rpc.rs:375-379 | a controller that alternates one written request and one read response gets, call by call, the answer of the fold to its own request, with nothing left under way |
| Session.ControllerReadsTheAnswers | nauti-fabric/src/rpc.rs:144-267 | a peer that writes all its requests first and then reads to the end gets the same responses, one per request in order |
| Session.RejectedChangesNothing | nauti-fabric/src/rpc.rs:255-264 | a rejected request gets its rejection and leaves the fabric, and the answer to every other request, as a ping in its place would |
| TtlRuns.BoundedIffRenewalsInside | nauti-fabric/src/rpc_auth.rs:192-213 | under TtlBound, over every run of RPC requests, all table entries of all states lapse between min and max after their grant if and only if every renewal that finds its lease asks for a deadline between those two |
| TtlRuns.EntriesAreBounded | nauti-fabric/src/rpc_auth.rs:192-213 | in particular in every run without renewals |
| TtlRuns.BlocksNoLongerThanMax | nauti-fabric/src/rpc_auth.rs:192-213 | after every run whose renewals stay inside, an entry blocks lease_exclusive until min has passed since its grant, and no longer once max has |
| TtlRuns.RenewalEscapesTheBound | nauti-fabric/src/rpc_auth.rs:192-213 | whatever the maximum, a renewal beyond it is let through and outlasts it |

## Left out

- VmLaunches.AtMostOneVm: says nothing of runs that present one resource id under two VM names; there the adapter takes the second name for another VM and may launch again.
- Orphans.NoRaceNoOrphan: goes one way, as a corollary; Orphans.NeverOrphansIffClean is the exact condition.
- Solo.RefreshAlone: compares the state only; the three lists of the report are gathered by the thread and are proved in the whole-call layer.
- Solo.EvictAlone: compares the state only; the returned list of stale nodes is proved in the whole-call layer.
- Whole calls read the clock once; the separate readings inside one call, and inside one prune, are part of the interleaved layer only.
- Clean-up after an attached lease expires, and a second detach after a failed one: the code does neither.
- The reservations of the GPU adapter, the reports of all adapters, and adapters that keep no state beyond success or failure.
- The argument vector of a VM, network provisioning, and the launcher's processes: each is an answer of the host.
- The order in which a hash map is walked inside a whole call; results that depend on it are sets.
- Host discovery, GPU discovery and hwloc's ancestor walk: refresh takes the discovered list and topology the devices with their node index.
- Rounding, infinities and NaN in scores, and how numbers are written into a reason text (a parameter).
- Lossy UTF-8 conversion: bodies are bytes, and in a size line and a head only ASCII white space is trimmed.
- Connecting, timeouts and the mapping of HTTP statuses to refusals in the plan client.
- The vhost-user queue, guest memory and event handling around a batch.
- QUIC endpoints and identities, the stub providers that reject everything, and log lines.
- Snapshot and latency-matrix loading, configuration, the command line, and the local snapshot of a host.
