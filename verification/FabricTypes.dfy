/** The entities of the resource fabric: resources, leases, attachments and
    the typed errors its operations answer with. */
module FabricTypes {

  datatype Option<+T> = None | Some(value: T)

  datatype Result<+T, +E> = Ok(value: T) | Err(error: E)

  type byte = n: nat | n < 256

  datatype ResourceKind = Cpu | Gpu | Memory | Storage | Network | Device

  datatype ResourceState = Available | Unavailable

  datatype Resource = Resource(
    id: string,
    kind: ResourceKind,
    capacity: nat,
    unit: string,
    node: string,
    state: ResourceState,
    exclusive: bool,
    attributes: map<string, string>)

  datatype FabricError =
    | ResourceNotFound
    | ResourceUnavailable
    | ResourceAlreadyLeased
    | LeaseNotFound
    | AdapterNotFound
    | IncompatibleResourceKind(adapter: string, expected: ResourceKind, actual: ResourceKind)
    | MissingResourceAttribute(key: string)
    | AdapterBackendUnavailable(adapterName: string, reason: string)

  datatype Lease = Lease(id: nat, resourceId: string, owner: string)

  datatype Attachment = Attachment(
    resourceId: string,
    leaseId: nat,
    adapter: string,
    details: map<string, string>)

  /** A table entry: the lease and the instant (in clock ticks) it lapses at. */
  datatype ActiveLease = ActiveLease(lease: Lease, expiresAt: nat)

  function Get<K, V>(m: map<K, V>, k: K): (r: Option<V>)
    ensures r.Some? <==> k in m
  {
    if k in m then Some(m[k]) else None
  }

  function GetOr<K, V>(m: map<K, V>, k: K, default: V): V {
    if k in m then m[k] else default
  }

  /** The adapters the model tells apart: those with a lock of their own, and the rest. */
  datatype AdapterKind = CloudHypervisor | FabricStore | GpuLocal | Stateless

  /** The record of a VM the Cloud Hypervisor adapter looks after. */
  datatype ManagedVm = ManagedVm(resourceId: string, apiSocket: string, vmName: string)

  /** What the host answers when an adapter calls out to it. */
  datatype Host = Host(
    located: bool,      // the VMM binary is there
    running: bool,      // the API socket reports a running VM
    provisioned: bool,  // the tap device could be set up
    launched: bool,     // the VMM process came up
    removed: bool,      // the VM could be torn down
    dirReady: bool,     // the store directory exists or was made
    reserved: bool,     // the GPU was already reserved under this lease
    accepts: bool)      // any other adapter takes the resource
}
