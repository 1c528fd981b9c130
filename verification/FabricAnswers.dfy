/** When each operation of the fabric succeeds, which error it answers otherwise, and
    what it leaves, in terms of the resource, the lease and the host alone. */
module FabricAnswers {
  import opened FabricTypes
  import opened FabricState
  import opened FabricSpec
  import opened FabricRuns
  import Store
  import StoreRuns

  // ------------------------------------------------------------------ leases

  /** The lease is in the table under its resource, and its deadline is ahead. */
  predicate Standing(m: FabricState, lease: Lease) {
    && lease.resourceId in m.leases
    && m.leases[lease.resourceId].lease.id == lease.id
    && m.leases[lease.resourceId].expiresAt > m.now
  }

  /** Nothing unlapsed is in the table for the resource. */
  predicate Unheld(m: FabricState, rid: string) {
    rid in m.leases ==> m.leases[rid].expiresAt <= m.now
  }

  /** Every entry of the old table but this one is in the new one exactly if unlapsed. */
  ghost predicate OthersPruned(m: FabricState, m': FabricState, rid: string) {
    && m' == m.(leases := m'.leases, nextLeaseId := m'.nextLeaseId)
    && forall other :: other != rid ==>
         && (other in m'.leases <==> other in m.leases && m.leases[other].expiresAt > m.now)
         && (other in m'.leases ==> m'.leases[other] == m.leases[other])
  }

  /** A lease is granted exactly when the resource is registered, available, exclusive
      and not held; each error names the first of these that fails. */
  lemma LeaseAnswers(m: FabricState, rid: string, owner: string, ttl: nat)
    ensures var (answer, m') := LeaseExclusive(m, rid, owner, ttl);
            var fit := rid in m.resources && m.resources[rid].state == Available && m.resources[rid].exclusive;
            && (answer.Ok? <==> fit && Unheld(m, rid))
            && (answer == Err(ResourceNotFound) <==> rid !in m.resources)
            && (answer == Err(ResourceUnavailable) <==> rid in m.resources && !fit)
            && (answer == Err(ResourceAlreadyLeased) <==> fit && !Unheld(m, rid))
            && (answer.Ok? ==>
                  && answer.value == Lease(m.nextLeaseId + 1, rid, owner) && m'.nextLeaseId == m.nextLeaseId + 1
                  && rid in m'.leases && m'.leases[rid] == ActiveLease(answer.value, m.now + ttl)
                  && OthersPruned(m, m', rid))
            && (answer.Err? ==> m'.nextLeaseId == m.nextLeaseId && m'.leases.Keys <= m.leases.Keys)
  {
  }

  /** A renewal succeeds exactly for a standing lease, and moves its deadline alone. */
  lemma RenewAnswers(m: FabricState, lease: Lease, ttl: nat)
    ensures var (answer, m') := RenewLease(m, lease, ttl);
            && (answer.Ok? <==> Standing(m, lease)) && (answer.Err? <==> answer == Err(LeaseNotFound))
            && m'.nextLeaseId == m.nextLeaseId
            && (answer.Ok? ==>
                  && answer.value == m.leases[lease.resourceId].lease
                  && lease.resourceId in m'.leases
                  && m'.leases[lease.resourceId] == ActiveLease(answer.value, m.now + ttl)
                  && OthersPruned(m, m', lease.resourceId))
  {
  }

  /** A registry call shows what was registered last under an id, until it is unregistered,
      which a lease in the table prevents. */
  lemma RegistryAnswers(m: FabricState, r: Resource, id: string)
    ensures var m' := Register(m, r);
            && r.id in m'.resources && m'.resources[r.id] == r && m' == m.(resources := m'.resources)
            && forall other :: other != r.id ==> Get(m'.resources, other) == Get(m.resources, other)
    ensures var (answer, m') := Unregister(m, id);
            && (answer == Err(ResourceAlreadyLeased) <==> id in m.leases)
            && (answer == Ok(true) <==> id !in m.leases && id in m.resources)
            && (answer == Ok(false) <==> id !in m.leases && id !in m.resources)
            && (answer.Err? ==> m' == m)
            && (answer.Ok? ==> id !in m'.resources && m' == m.(resources := m'.resources)
                               && forall other :: other != id ==> Get(m'.resources, other) == Get(m.resources, other))
  {
  }

  // ------------------------------------------------------------ availability

  /** What is offered is exactly what is registered, available, of the kind, size, place
      and attributes asked for, exclusive if asked for, and without a table entry if
      exclusive. */
  lemma FindAvailableIsExact(m: FabricState, request: ResourceRequest, r: Resource)
    ensures r in FindAvailable(m, request) <==>
              && (exists id :: id in m.resources && m.resources[id] == r)
              && r.state == Available
              && (request.kind == None || request.kind == Some(r.kind))
              && (request.minimumCapacity.Some? ==> request.minimumCapacity.value <= r.capacity)
              && (request.node == None || request.node == Some(r.node))
              && (request.exclusive ==> r.exclusive)
              && (forall k :: k in request.requiredAttributes ==>
                    k in r.attributes && r.attributes[k] == request.requiredAttributes[k])
              && (r.exclusive ==> r.id !in m.leases)
  {
    if id :| id in m.resources && m.resources[id] == r {
      assert IsOffered(m, request, id) <==> Satisfies(request, r) && (r.exclusive ==> r.id !in m.leases);
    }
  }

  // --------------------------------------------------------------------- VMs

  /** The name a VM goes by: its own, or its resource's id. */
  function NameOf(r: Resource): string {
    if "vmm.vm_name" in r.attributes then r.attributes["vmm.vm_name"] else r.id
  }

  predicate Known(managed: map<string, ManagedVm>, r: Resource) {
    r.id in managed && managed[r.id].vmName == NameOf(r)
  }

  /** A device with a socket, and a binary to run it. */
  predicate Addressable(r: Resource, host: Host) {
    r.kind == Device && host.located && "vmm.api_socket" in r.attributes
  }

  /** It has what a launch takes, its network is up if it wants one, and the launch works. */
  predicate Starts(r: Resource, host: Host) {
    && "vmm.kernel" in r.attributes && "vmm.rootfs" in r.attributes
    && ("vmm.net" in r.attributes ==> host.provisioned) && host.launched
  }

  /** A VM is launched exactly when it is addressable, neither known nor running, and
      starts; it is taken over exactly when it is addressable and known or running. It
      is recorded under its name and socket then, and nothing is recorded otherwise. */
  lemma VmAttachDecides(managed: map<string, ManagedVm>, adapter: string, r: Resource, host: Host)
    ensures var (answer, managed') := VmAttach(managed, adapter, r, host);
            && (answer == Ok(true) <==>
                  Addressable(r, host) && !Known(managed, r) && !host.running && Starts(r, host))
            && (answer == Ok(false) <==> Addressable(r, host) && (Known(managed, r) || host.running))
            && managed' == if answer.Ok? && !Known(managed, r)
                           then managed[r.id := ManagedVm(r.id, r.attributes["vmm.api_socket"], NameOf(r))]
                           else managed
  {
  }

  /** The error names the first thing that is missing. */
  lemma VmAttachRefusals(managed: map<string, ManagedVm>, adapter: string, r: Resource, host: Host)
    requires VmAttach(managed, adapter, r, host).0.Err?
    ensures var error := VmAttach(managed, adapter, r, host).0.error;
            if r.kind != Device then error == IncompatibleResourceKind(adapter, Device, r.kind)
            else if !host.located then error.AdapterBackendUnavailable?
            else if "vmm.api_socket" !in r.attributes then error == MissingResourceAttribute("vmm.api_socket")
            else if "vmm.net" in r.attributes && !host.provisioned then error.AdapterBackendUnavailable?
            else if "vmm.kernel" !in r.attributes then error == MissingResourceAttribute("vmm.kernel")
            else if "vmm.rootfs" !in r.attributes then error == MissingResourceAttribute("vmm.rootfs")
            else error.AdapterBackendUnavailable? && !host.launched
  {
  }

  /** The details say which VM it is, and "true" exactly for a launch. */
  lemma VmDetailsTell(binary: string, r: Resource, launched: bool)
    requires "vmm.api_socket" in r.attributes
    ensures var details := VmDetails(binary, r, launched);
            && details.Keys == {"vmm.binary", "vmm.api_socket", "vmm.vm_name", "vmm.launched_by_adapter"}
            && details["vmm.binary"] == binary && details["vmm.api_socket"] == r.attributes["vmm.api_socket"]
            && details["vmm.vm_name"] == NameOf(r)
            && (details["vmm.launched_by_adapter"] == "true" <==> launched)
            && (details["vmm.launched_by_adapter"] == "false" <==> !launched)
  {
  }

  /** The details of a store say its kind and what a job opens, from the attributes. */
  lemma StoreDetailsTell(r: Resource)
    requires Store.FromResource(r).Ok?
    ensures var a, details := r.attributes, StoreDetails(Store.FromResource(r).value);
            var tag := if "store.tag" in a then a["store.tag"] else "nauti";
            var shared := Store.Asked(r) in {"virtio-fs", "virtiofs", "fs"};
            && details.Keys == {"store.kind", "store.path", "store.virtio_fs", "store.tag"}
            && details["store.kind"] == (if shared then "virtio-fs" else Store.Asked(r))
            && details["store.path"] == (if Store.Asked(r) == "nfs" then a["store.nfs_export"] else a["store.path"])
            && details["store.tag"] == tag
            && details["store.virtio_fs"] == if shared then "tag=" + tag + ",socket=" + a["store.socket"] else ""
  {
    Store.ResolvesExactly(r);
    Store.JobInput(r);
  }

  // ------------------------------------------------------ attach and release

  /** The adapter takes the resource. */
  predicate Takes(m: FabricState, adapter: string, r: Resource, host: Host)
    requires adapter in m.adapters
  {
    match m.adapters[adapter]
    case CloudHypervisor => Addressable(r, host) && (Known(m.managed, r) || host.running || Starts(r, host))
    case FabricStore => Store.FromResource(r).Ok? && (Store.Asked(r) == "nfs" || host.dirReady)
    case GpuLocal => r.kind == Gpu && ("gpu.uuid" in r.attributes || "gpu.pci_bus_id" in r.attributes)
    case Stateless => host.accepts
  }

  lemma AdapterAnswers(m: FabricState, adapter: string, r: Resource, lease: Lease, host: Host, binary: string,
                       answer: Result<map<string, string>, FabricError>, m': FabricState)
    requires adapter in m.adapters && (answer, m') == AdapterAttach(m, adapter, r, lease, host, binary)
    ensures answer.Ok? <==> Takes(m, adapter, r, host)
    ensures answer.Err? ==> m' == m && answer.error !in {ResourceNotFound, LeaseNotFound, AdapterNotFound}
    ensures answer.Ok? ==> Leaves(m, adapter, r, lease, host, binary, answer.value, m')
  {
    match m.adapters[adapter]
    case CloudHypervisor => VmAttachDecides(m.managed, adapter, r, host);
    case FabricStore => Store.ResolvesExactly(r);
    case GpuLocal =>
    case Stateless =>
  }

  /** What an adapter that takes a resource tells and keeps. */
  predicate Leaves(m: FabricState, adapter: string, r: Resource, lease: Lease, host: Host, binary: string,
                   details: map<string, string>, m': FabricState)
    requires adapter in m.adapters
  {
    match m.adapters[adapter]
    case CloudHypervisor =>
      && "vmm.api_socket" in r.attributes
      && details == VmDetails(binary, r, !Known(m.managed, r) && !host.running)
      && m' == m.(managed := if Known(m.managed, r) then m.managed
                             else m.managed[r.id := ManagedVm(r.id, r.attributes["vmm.api_socket"], NameOf(r))])
    case FabricStore =>
      && Store.FromResource(r).Ok?
      && details == StoreDetails(Store.FromResource(r).value)
      && m' == m.(live := m.live[lease.id := Store.FromResource(r).value])
    case GpuLocal => m' == m
    case Stateless => m' == m
  }

  /** An attach succeeds exactly for a registered resource under a standing lease through
      a registered adapter that takes it. It is on record then, and a refusal that is
      not the adapter's own names the first of these that fails and changes nothing. */
  lemma AttachAnswers(m: FabricState, adapter: string, lease: Lease, host: Host, binary: string,
                      answer: Result<Attachment, FabricError>, m': FabricState)
    requires (answer, m') == Attach(m, adapter, lease, host, binary)
    ensures var rid := lease.resourceId;
            && (answer.Ok? <==> && rid in m.resources && Standing(m, lease) && adapter in m.adapters
                                && Takes(m, adapter, m.resources[rid], host))
            && (answer == Err(ResourceNotFound) <==> rid !in m.resources)
            && (answer == Err(LeaseNotFound) <==> rid in m.resources && !Standing(m, lease))
            && (answer == Err(AdapterNotFound) <==> rid in m.resources && Standing(m, lease) && adapter !in m.adapters)
            && (answer.Err? ==> m' == m)
            && (answer.Ok? ==>
                  && m'.attachments == m.attachments[rid := adapter] && m'.leases == m.leases
                  && answer.value.resourceId == m.resources[rid].id && answer.value.leaseId == lease.id
                  && answer.value.adapter == adapter
                  && Leaves(m, adapter, m.resources[rid], lease, host, binary, answer.value.details,
                            m'.(attachments := m.attachments)))
  {
    var rid := lease.resourceId;
    if rid in m.resources && Standing(m, lease) && adapter in m.adapters {
      var r := m.resources[rid];
      var (own, after) := AdapterAttach(m, adapter, r, lease, host, binary);
      AdapterAnswers(m, adapter, r, lease, host, binary, own, after);
      AdapterKeepsTables(m, adapter, r, lease, host, binary, after);
    }
  }

  /** After any run a release succeeds exactly for a lease in the table, lapsed or not; it
      goes with its attachment record, and nobody else's lease or record does. */
  lemma ReleaseAnswers(calls: seq<Call>, lease: Lease)
    ensures var m := Play(calls).state;
            var (answer, m') := Release(m, lease);
            var rid := lease.resourceId;
            && (answer.Ok? <==> rid in m.leases && m.leases[rid].lease.id == lease.id)
            && (answer.Err? ==> answer == Err(LeaseNotFound) && m' == m)
            && (answer.Ok? ==>
                  m' == m.(leases := m.leases - {rid}, attachments := m.attachments - {rid}, live := m'.live)
                  && m'.live == if rid in m.attachments && Get(m.adapters, m.attachments[rid]) == Some(FabricStore)
                                then m.live - {lease.id} else m.live)
  {
    StoreRuns.ReleaseDetachesIffStoreAttachedLast(calls, lease);
    LeasedMeansRegistered(calls);
    LeasesRegistered(Play(calls).state, Play(calls).ledger.granted);
  }

  // ------------------------------------------------------------- heartbeats

  /** The time that has passed over a run. */
  function Clock(calls: seq<Call>): nat {
    if calls == [] then 0
    else
      var last := calls[|calls| - 1];
      Clock(calls[..|calls| - 1]) + if last.WaitCall? then last.ticks else 0
  }

  /** When a node was last heard of, unless an eviction has found it silent since. */
  function LastKnownBeat(calls: seq<Call>, node: string): Option<nat> {
    if calls == [] then None
    else
      var before, last := calls[..|calls| - 1], calls[|calls| - 1];
      var known := LastKnownBeat(before, node);
      if last == HeartbeatCall(node) then Some(Clock(before))
      else if last.EvictCall? && known.Some? && known.value + last.olderThan < Clock(before) then None
      else known
  }

  lemma CallMovesClock(m: FabricState, call: Call, m': FabricState)
    requires m' == Apply(m, call)
    ensures m'.now == m.now + if call.WaitCall? then call.ticks else 0
    ensures call.HeartbeatCall? ==> m'.heartbeats == m.heartbeats[call.node := m.now]
    ensures call.EvictCall? ==>
              m'.heartbeats == map n | n in m.heartbeats && m.heartbeats[n] + call.olderThan >= m.now :: m.heartbeats[n]
    ensures !call.HeartbeatCall? && !call.EvictCall? ==> m'.heartbeats == m.heartbeats
  {
    if call.AttachCall? {
      AttachKeepsBeats(m, call.adapter, call.lease, call.host, m');
    }
  }

  lemma AttachKeepsBeats(m: FabricState, adapter: string, lease: Lease, host: Host, m': FabricState)
    requires m' == Attach(m, adapter, lease, host, "").1
    ensures m'.now == m.now && m'.heartbeats == m.heartbeats
  {
  }

  /** Over every run the heartbeats kept are the last ones heard, each at its own time. */
  lemma {:induction false} HeartbeatsAreTheLastHeard(calls: seq<Call>, node: string)
    ensures Play(calls).state.now == Clock(calls)
    ensures Get(Play(calls).state.heartbeats, node) == LastKnownBeat(calls, node)
    decreases |calls|
  {
    if calls != [] {
      var n := |calls| - 1;
      HeartbeatsAreTheLastHeard(calls[..n], node);
      CallMovesClock(Play(calls[..n]).state, calls[n], Play(calls).state);
    }
  }

  /** An eviction after any run finds exactly the nodes last heard of before the bound,
      and takes exactly their unleased resources. */
  lemma EvictsTheSilent(calls: seq<Call>, olderThan: nat, node: string, id: string)
    ensures var m := Play(calls).state;
            var (stale, m') := Evict(m, olderThan);
            var known := LastKnownBeat(calls, node);
            && (node in stale <==> known.Some? && known.value + olderThan < Clock(calls))
            && (id in m.resources && m.resources[id].node == node ==>
                  (id !in m'.resources <==> node in stale && id !in m.leases))
  {
    HeartbeatsAreTheLastHeard(calls, node);
  }

  lemma {:induction false} HeardSince(calls: seq<Call>, node: string, after: seq<Call>)
    requires forall c :: c in after && c.EvictCall? ==> c.olderThan >= Clock(after)
    ensures var run := calls + [HeartbeatCall(node)] + after;
            var known := LastKnownBeat(run, node);
            Clock(run) == Clock(calls) + Clock(after) && known.Some? && known.value >= Clock(calls)
    decreases |after|
  {
    var beaten := calls + [HeartbeatCall(node)];
    var run := beaten + after;
    if after == [] {
      assert run == beaten && beaten[..|beaten| - 1] == calls;
    } else {
      var n := |after| - 1;
      assert run[..|run| - 1] == beaten + after[..n] && run[|run| - 1] == after[n];
      assert after[n] in after && forall c :: c in after[..n] ==> c in after;
      HeardSince(calls, node, after[..n]);
    }
  }

  /** A heartbeat protects a node from every eviction whose bound covers the time since,
      whatever is called in between: it is not listed and keeps its resources. */
  lemma BeatProtects(calls: seq<Call>, node: string, after: seq<Call>, olderThan: nat, id: string)
    requires olderThan >= Clock(after)
    requires forall c :: c in after && c.EvictCall? ==> c.olderThan >= Clock(after)
    ensures var m := Play(calls + [HeartbeatCall(node)] + after).state;
            var (stale, m') := Evict(m, olderThan);
            node !in stale && (id in m.resources && m.resources[id].node == node ==> id in m'.resources)
  {
    HeardSince(calls, node, after);
    EvictsTheSilent(calls + [HeartbeatCall(node)] + after, olderThan, node, id);
  }
}
