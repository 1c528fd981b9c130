/** The requests a controller may make of a remote fabric, and who may make them. */
module Rpc {
  import opened FabricTypes
  import opened FabricState
  import Spec = FabricSpec

  /** Clock ticks in a second. */
  const SECOND: nat := 1_000_000_000

  datatype RpcRequest =
    | Ping
    | Inventory
    | FindAvailable(query: Spec.ResourceRequest)
    | LeaseExclusive(resourceId: string, owner: string, ttlSecs: nat)
    | Attach(adapter: string, lease: Lease)
    | Release(toRelease: Lease)
    | LeaseRenew(toRenew: Lease, ttlSecs: nat)
    | Heartbeat(node: string)

  datatype Rejection = BelowMinimum(owner: string, min: nat) | AboveMaximum(owner: string, max: nat)

  datatype RpcError = FromFabric(fabric: FabricError) | FromAuth(auth: Rejection)

  datatype RpcResponse =
    | Pong
    | Resources(all: set<Resource>)
    | Offered(found: set<Resource>)
    | Leased(lease: Lease)
    | Attached(attachment: Attachment)
    | Released
    | Error(error: RpcError)

  // ------------------------------------------------------------ authorization

  datatype AuthProvider = NoAuth | TtlBound(min: nat, max: nat)

  function Authorize(auth: AuthProvider, request: RpcRequest): Result<(), Rejection> {
    if auth.TtlBound? && request.LeaseExclusive? then
      var ttl := request.ttlSecs * SECOND;
      if ttl < auth.min then Err(BelowMinimum(request.owner, auth.min))
      else if ttl > auth.max then Err(AboveMaximum(request.owner, auth.max))
      else Ok(())
    else Ok(())
  }

  // ----------------------------------------------------------------- dispatch

  /** Answers one request: the response, and the fabric after it. */
  function Dispatch(m: FabricState, request: RpcRequest, host: Host, binary: string): (RpcResponse, FabricState) {
    match request
    case Ping => (Pong, m)
    case Inventory => (Resources(m.resources.Values), m)
    case FindAvailable(query) => (Offered(Spec.FindAvailable(m, query)), m)
    case LeaseExclusive(rid, owner, ttlSecs) =>
      var (answer, m') := Spec.LeaseExclusive(m, rid, owner, ttlSecs * SECOND);
      (if answer.Ok? then Leased(answer.value) else Error(FromFabric(answer.error)), m')
    case Attach(adapter, lease) =>
      var (answer, m') := Spec.Attach(m, adapter, lease, host, binary);
      (if answer.Ok? then Attached(answer.value) else Error(FromFabric(answer.error)), m')
    case Release(lease) =>
      var (answer, m') := Spec.Release(m, lease);
      (if answer.Ok? then Released else Error(FromFabric(answer.error)), m')
    case LeaseRenew(lease, ttlSecs) =>
      var (answer, m') := Spec.RenewLease(m, lease, ttlSecs * SECOND);
      (if answer.Ok? then Leased(answer.value) else Error(FromFabric(answer.error)), m')
    case Heartbeat(node) => (Pong, Spec.Heartbeat(m, node))
  }

  /** Authorization first: a rejected request is answered and goes no further. */
  function Answer(auth: AuthProvider, m: FabricState, request: RpcRequest, host: Host, binary: string)
    : (RpcResponse, FabricState)
  {
    var verdict := Authorize(auth, request);
    if verdict.Ok? then Dispatch(m, request, host, binary) else (Error(FromAuth(verdict.error)), m)
  }

  /** What surrounds the serving of one request: the ticks the clock has moved on, and
      what the host answers to an adapter. */
  datatype Surroundings = Surroundings(ticks: nat, host: Host)

  function Waited(m: FabricState, ticks: nat): FabricState {
    m.(now := m.now + ticks)
  }

  /** The requests of a session answered one after the other, the `i`-th first. */
  function Fold(auth: AuthProvider, m: FabricState, requests: seq<RpcRequest>, env: nat -> Surroundings, i: nat,
                binary: string)
    : (seq<RpcResponse>, FabricState)
    decreases |requests|
  {
    if requests == [] then ([], m)
    else
      var (response, m') := Answer(auth, Waited(m, env(i).ticks), requests[0], env(i).host, binary);
      var (responses, m'') := Fold(auth, m', requests[1..], env, i + 1, binary);
      ([response] + responses, m'')
  }
}
