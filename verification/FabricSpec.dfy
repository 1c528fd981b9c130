/** What one whole call does to a fabric, at one instant of its clock. */
module FabricSpec {
  import opened FabricTypes
  import opened FabricState
  import Order
  import Store

  // ------------------------------------------------------------- registry

  function Register(m: FabricState, r: Resource): FabricState {
    m.(resources := m.resources[r.id := r])
  }

  function Unregister(m: FabricState, id: string): (Result<bool, FabricError>, FabricState) {
    if id in m.leases then (Err(ResourceAlreadyLeased), m)
    else (Ok(id in m.resources), m.(resources := m.resources - {id}))
  }

  datatype RefreshReport = RefreshReport(added: seq<string>, removed: seq<string>, blockedByLease: seq<string>)

  /** The entry a list of registrations leaves under `id`: the last one with it. */
  function LastWith(rs: seq<Resource>, id: string): Resource
    requires id in Ids(rs)
  {
    var r := rs[|rs| - 1];
    if r.id == id then r else LastWith(rs[..|rs| - 1], id)
  }

  /** The registry after a refresh: what stays keeps its old entry, what is new gets
      its discovered one, and what is gone stays only while it is leased. */
  function Refreshed(m: FabricState, discovered: seq<Resource>): map<string, Resource> {
    map id | id in m.resources.Keys + Ids(discovered)
             && (id in m.resources ==> id in Ids(discovered) || id in m.leases)
      :: if id in m.resources then m.resources[id] else LastWith(discovered, id)
  }

  /** The entries a discovery brings to a registry that knows the ids `known`. */
  function Newcomers(discovered: seq<Resource>, known: set<string>): map<string, Resource> {
    map id | id in Ids(discovered) - known :: LastWith(discovered, id)
  }

  lemma RefreshedBySteps(m: FabricState, discovered: seq<Resource>)
    ensures var grown := m.resources + Newcomers(discovered, m.resources.Keys);
            grown - ((m.resources.Keys - Ids(discovered)) - m.leases.Keys) == Refreshed(m, discovered)
  {
  }

  function Refresh(m: FabricState, discovered: seq<Resource>): (RefreshReport, FabricState) {
    var gone := m.resources.Keys - Ids(discovered);
    (RefreshReport(
       Order.Sorted(Ids(discovered) - m.resources.Keys),
       Order.Sorted(gone - m.leases.Keys),
       Order.Sorted(gone * m.leases.Keys)),
     m.(resources := Refreshed(m, discovered)))
  }

  function Heartbeat(m: FabricState, node: string): FabricState {
    m.(heartbeats := m.heartbeats[node := m.now])
  }

  function Evict(m: FabricState, olderThan: nat): (set<string>, FabricState) {
    var stale := Stale(m.heartbeats, m.now - olderThan);
    (stale,
     m.(heartbeats := m.heartbeats - stale,
        resources := m.resources - (Owned(m.resources, stale) - m.leases.Keys)))
  }

  // --------------------------------------------------------------- leases

  function Alive(leases: map<string, ActiveLease>, now: nat): set<string> {
    set rid | rid in leases && leases[rid].expiresAt > now
  }

  function Prune(m: FabricState): FabricState {
    m.(leases := Pruned(m.leases, Alive(m.leases, m.now)))
  }

  function LeaseExclusive(m: FabricState, rid: string, owner: string, ttl: nat)
    : (Result<Lease, FabricError>, FabricState)
  {
    if rid !in m.resources then (Err(ResourceNotFound), m)
    else if m.resources[rid].state != Available || !m.resources[rid].exclusive then (Err(ResourceUnavailable), m)
    else
      var m' := Prune(m);
      if rid in m'.leases then (Err(ResourceAlreadyLeased), m')
      else
        var lease := Lease(m.nextLeaseId + 1, rid, owner);
        (Ok(lease), m'.(nextLeaseId := lease.id, leases := m'.leases[rid := ActiveLease(lease, m.now + ttl)]))
  }

  function RenewLease(m: FabricState, lease: Lease, ttl: nat): (Result<Lease, FabricError>, FabricState) {
    var m' := Prune(m);
    if !Matches(m', lease) then (Err(LeaseNotFound), m')
    else
      var active := m'.leases[lease.resourceId];
      (Ok(active.lease), m'.(leases := m'.leases[lease.resourceId := active.(expiresAt := m.now + ttl)]))
  }

  // -------------------------------------------------------------- queries

  datatype ResourceRequest = ResourceRequest(
    kind: Option<ResourceKind>,
    minimumCapacity: Option<nat>,
    node: Option<string>,
    requiredAttributes: map<string, string>,
    exclusive: bool)

  predicate Satisfies(request: ResourceRequest, r: Resource) {
    && r.state == Available
    && (request.kind.Some? ==> request.kind.value == r.kind)
    && (request.minimumCapacity.Some? ==> r.capacity >= request.minimumCapacity.value)
    && (request.node.Some? ==> request.node.value == r.node)
    && (request.exclusive ==> r.exclusive)
    && (forall k :: k in request.requiredAttributes ==>
          k in r.attributes && r.attributes[k] == request.requiredAttributes[k])
  }

  predicate IsOffered(m: FabricState, request: ResourceRequest, id: string)
    requires id in m.resources
  {
    Satisfies(request, m.resources[id]) && (m.resources[id].exclusive ==> m.resources[id].id !in m.leases)
  }

  function FindAvailable(m: FabricState, request: ResourceRequest): set<Resource> {
    set id | id in m.resources && IsOffered(m, request, id) :: m.resources[id]
  }

  // ------------------------------------------------------ attach and release

  function VmDetails(binary: string, r: Resource, launched: bool): map<string, string> {
    map["vmm.binary" := binary,
        "vmm.api_socket" := GetOr(r.attributes, "vmm.api_socket", ""),
        "vmm.vm_name" := VmName(r),
        "vmm.launched_by_adapter" := if launched then "true" else "false"]
  }

  /** The Cloud Hypervisor adapter: did it launch a VM, and what it manages now. */
  function VmAttach(managed: map<string, ManagedVm>, adapter: string, r: Resource, host: Host)
    : (Result<bool, FabricError>, map<string, ManagedVm>)
  {
    match VmPrecheck(adapter, r, host)
    case Err(error) => (Err(error), managed)
    case Ok(_) =>
      if IsManaged(managed, r) then (Ok(false), managed)
      else if host.running then (Ok(false), managed[r.id := VmRecordOf(r)])
      else
        match VmStart(adapter, r, host)
        case Err(error) => (Err(error), managed)
        case Ok(_) => (Ok(true), managed[r.id := VmRecordOf(r)])
  }

  function StoreDetails(store: Store.StoreResolution): map<string, string> {
    map["store.kind" := Store.KindName(store.kind),
        "store.path" := Store.JobPath(store),
        "store.virtio_fs" := match Store.VirtioFsSpec(store) case Some(spec) => spec case None => "",
        "store.tag" := store.tag]
  }

  /** The adapter's own part of an attach: the details it answers with. */
  function AdapterAttach(m: FabricState, adapter: string, r: Resource, lease: Lease, host: Host, binary: string)
    : (Result<map<string, string>, FabricError>, FabricState)
    requires adapter in m.adapters
  {
    match m.adapters[adapter]
    case CloudHypervisor =>
      var (launched, managed) := VmAttach(m.managed, adapter, r, host);
      (match launched case Err(error) => Err(error) case Ok(l) => Ok(VmDetails(binary, r, l)),
       m.(managed := managed))
    case FabricStore =>
      (match StorePrecheck(adapter, r, host)
       case Err(error) => (Err(error), m)
       case Ok(store) => (Ok(StoreDetails(store)), m.(live := m.live[lease.id := store])))
    case GpuLocal =>
      (match GpuPrecheck(adapter, r) case Err(error) => Err(error) case Ok(_) => Ok(map[]), m)
    case Stateless =>
      (if host.accepts then Ok(map[]) else Err(AdapterBackendUnavailable(adapter, "refused")), m)
  }

  function Attach(m: FabricState, adapter: string, lease: Lease, host: Host, binary: string)
    : (Result<Attachment, FabricError>, FabricState)
  {
    var rid := lease.resourceId;
    if rid !in m.resources then (Err(ResourceNotFound), m)
    else if !(Matches(m, lease) && m.leases[rid].expiresAt > m.now) then (Err(LeaseNotFound), m)
    else if adapter !in m.adapters then (Err(AdapterNotFound), m)
    else
      var r := m.resources[rid];
      var (answer, m') := AdapterAttach(m, adapter, r, lease, host, binary);
      match answer
      case Err(error) => (Err(error), m')
      case Ok(details) =>
        (Ok(Attachment(r.id, lease.id, adapter, details)), m'.(attachments := m'.attachments[rid := adapter]))
  }

  /** The store adapter: remove the entry of the lease, unless it is another resource's. */
  function StoreDetach(live: map<nat, Store.StoreResolution>, r: Resource, lease: Lease)
    : (Result<(), FabricError>, map<nat, Store.StoreResolution>)
  {
    if lease.id !in live then (Ok(()), live)
    else if live[lease.id].resourceId == r.id then (Ok(()), live - {lease.id})
    else (Err(LeaseNotFound), live)
  }

  function Release(m: FabricState, lease: Lease): (Result<(), FabricError>, FabricState) {
    var rid := lease.resourceId;
    if !Matches(m, lease) then (Err(LeaseNotFound), m)
    else
      var m' := m.(attachments := m.attachments - {rid});
      var (detached, live) :=
        if rid in m.attachments && rid in m.resources
           && m.attachments[rid] in m.adapters && m.adapters[m.attachments[rid]] == FabricStore
        then StoreDetach(m.live, m.resources[rid], lease)
        else (Ok(()), m.live);
      match detached
      case Err(error) => (Err(error), m')
      case Ok(_) => (Ok(()), m'.(live := live, leases := m.leases - {rid}))
  }
}
