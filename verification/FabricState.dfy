/** The state of one fabric: its registries, its lease table, and the maps of the
    two adapters that keep any. */
module FabricState {
  import opened FabricTypes
  import Store

  datatype FabricState = FabricState(
    resources: map<string, Resource>,
    leases: map<string, ActiveLease>,
    adapters: map<string, AdapterKind>,
    attachments: map<string, string>,      // resource id -> name of the adapter that attached it
    heartbeats: map<string, nat>,          // node -> instant of its last beat
    nextLeaseId: nat,
    managed: map<string, ManagedVm>,       // Cloud Hypervisor adapter: resource id -> VM
    live: map<nat, Store.StoreResolution>, // store adapter: lease id -> store
    now: nat)

  const EMPTY := FabricState(map[], map[], map[], map[], map[], 0, map[], map[], 0)

  /** True when the table still has this very lease for its resource. */
  predicate Matches(m: FabricState, lease: Lease) {
    lease.resourceId in m.leases && m.leases[lease.resourceId].lease.id == lease.id
  }

  function VmName(resource: Resource): string {
    GetOr(resource.attributes, "vmm.vm_name", resource.id)
  }

  function VmRecordOf(resource: Resource): ManagedVm {
    ManagedVm(resource.id, GetOr(resource.attributes, "vmm.api_socket", ""), VmName(resource))
  }

  /** The adapter already looks after this VM. */
  predicate IsManaged(managed: map<string, ManagedVm>, resource: Resource) {
    resource.id in managed && managed[resource.id].vmName == VmName(resource)
  }

  function Ids(rs: seq<Resource>): set<string> {
    set r | r in rs :: r.id
  }

  function Owned(resources: map<string, Resource>, stale: set<string>): set<string> {
    set id | id in resources && resources[id].node in stale
  }

  function Stale(heartbeats: map<string, nat>, cutoff: int): set<string> {
    set node | node in heartbeats && heartbeats[node] < cutoff
  }

  function Pruned(leases: map<string, ActiveLease>, keep: set<string>): map<string, ActiveLease> {
    map rid | rid in leases && rid in keep :: leases[rid]
  }

  /** What the Cloud Hypervisor adapter checks before it looks for a VM. */
  function VmPrecheck(adapter: string, resource: Resource, host: Host): Result<(), FabricError> {
    if resource.kind != Device then Err(IncompatibleResourceKind(adapter, Device, resource.kind))
    else if !host.located then Err(AdapterBackendUnavailable(adapter, "binary not found"))
    else if "vmm.api_socket" !in resource.attributes then Err(MissingResourceAttribute("vmm.api_socket"))
    else Ok(())
  }

  /** The steps from a VM that does not run to one that was launched. */
  function VmStart(adapter: string, resource: Resource, host: Host): Result<(), FabricError> {
    if "vmm.net" in resource.attributes && !host.provisioned then
      Err(AdapterBackendUnavailable(adapter, "network not provisioned"))
    else if "vmm.kernel" !in resource.attributes then Err(MissingResourceAttribute("vmm.kernel"))
    else if "vmm.rootfs" !in resource.attributes then Err(MissingResourceAttribute("vmm.rootfs"))
    else if !host.launched then Err(AdapterBackendUnavailable(adapter, "launch failed"))
    else Ok(())
  }

  function GpuPrecheck(adapter: string, resource: Resource): Result<(), FabricError> {
    if resource.kind != Gpu then Err(IncompatibleResourceKind(adapter, Gpu, resource.kind))
    else if "gpu.uuid" !in resource.attributes && "gpu.pci_bus_id" !in resource.attributes then
      Err(MissingResourceAttribute("gpu.uuid or gpu.pci_bus_id"))
    else Ok(())
  }

  /** The store a resource resolves to, its directory in place. */
  function StorePrecheck(adapter: string, resource: Resource, host: Host): Result<Store.StoreResolution, FabricError> {
    match Store.FromResource(resource)
    case Err(error) => Err(error)
    case Ok(store) =>
      if store.kind != Store.Nfs && !host.dirReady then
        Err(AdapterBackendUnavailable(adapter, "cannot create directory"))
      else Ok(store)
  }
}
