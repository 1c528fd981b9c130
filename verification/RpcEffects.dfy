/** What each RPC request does to the fabric and is answered, and what a whole session
    can rely on. */
module RpcEffects {
  import opened FabricTypes
  import opened FabricState
  import opened FabricAnswers
  import opened Rpc
  import FabricRuns
  import Spec = FabricSpec

  /** Ticks in a second: a billion nanoseconds. */
  function Ticks(seconds: nat): nat {
    1_000_000_000 * seconds
  }

  /** A time-bound provider turns away exactly the lease requests shorter than its minimum
      or longer than its maximum; no provider turns away anything. */
  lemma AuthorizeDecides(auth: AuthProvider, request: RpcRequest)
    ensures Authorize(auth, request).Err? <==>
              && auth.TtlBound? && request.LeaseExclusive?
              && (Ticks(request.ttlSecs) < auth.min || Ticks(request.ttlSecs) > auth.max)
    ensures Authorize(auth, request).Err? ==>
              Authorize(auth, request).error == if Ticks(request.ttlSecs) < auth.min
                                                then BelowMinimum(request.owner, auth.min)
                                                else AboveMaximum(request.owner, auth.max)
  {
  }

  // ------------------------------------------------------- request by request

  /** A lease request is answered with a new lease exactly when the resource is registered,
      available, exclusive and not held, and the entry stands for the seconds asked. */
  lemma LeaseEffect(m: FabricState, rid: string, owner: string, ttlSecs: nat, host: Host, binary: string)
    ensures var (response, m') := Dispatch(m, LeaseExclusive(rid, owner, ttlSecs), host, binary);
            var fit := rid in m.resources && m.resources[rid].state == Available && m.resources[rid].exclusive;
            && (response.Leased? <==> fit && Unheld(m, rid))
            && (response.Leased? ==>
                  && response.lease == Lease(m.nextLeaseId + 1, rid, owner) && m'.nextLeaseId == m.nextLeaseId + 1
                  && rid in m'.leases && m'.leases[rid] == ActiveLease(response.lease, m.now + Ticks(ttlSecs))
                  && OthersPruned(m, m', rid))
            && (!response.Leased? ==>
                  && m'.nextLeaseId == m.nextLeaseId && m'.leases.Keys <= m.leases.Keys
                  && response == Error(FromFabric(if rid !in m.resources then ResourceNotFound
                                                  else if !fit then ResourceUnavailable else ResourceAlreadyLeased)))
  {
    LeaseAnswers(m, rid, owner, Ticks(ttlSecs));
  }

  /** A renewal is answered with the lease exactly when it stands, and moves its deadline
      to the seconds asked from now. */
  lemma RenewEffect(m: FabricState, lease: Lease, ttlSecs: nat, host: Host, binary: string)
    ensures var (response, m') := Dispatch(m, LeaseRenew(lease, ttlSecs), host, binary);
            && (response.Leased? <==> Standing(m, lease)) && m'.nextLeaseId == m.nextLeaseId
            && (!response.Leased? ==> response == Error(FromFabric(LeaseNotFound)))
            && (response.Leased? ==>
                  && response.lease == m.leases[lease.resourceId].lease && lease.resourceId in m'.leases
                  && m'.leases[lease.resourceId] == ActiveLease(response.lease, m.now + Ticks(ttlSecs))
                  && OthersPruned(m, m', lease.resourceId))
  {
    RenewAnswers(m, lease, Ticks(ttlSecs));
  }

  /** After any run a release is answered Released exactly for a lease in the table, which
      is gone then, with its attachment record; anything else is answered LeaseNotFound
      and changes nothing. */
  lemma ReleaseEffect(calls: seq<FabricRuns.Call>, lease: Lease, host: Host, binary: string)
    ensures var m := FabricRuns.Play(calls).state;
            var (response, m') := Dispatch(m, Release(lease), host, binary);
            var rid := lease.resourceId;
            && (response == Released <==> rid in m.leases && m.leases[rid].lease.id == lease.id)
            && (response != Released ==> response == Error(FromFabric(LeaseNotFound)) && m' == m)
            && (response == Released ==>
                  && m' == m.(leases := m.leases - {rid}, attachments := m.attachments - {rid}, live := m'.live)
                  && rid !in m'.leases && rid !in m'.attachments)
  {
    ReleaseAnswers(calls, lease);
  }

  /** An attach is answered with an attachment exactly when the resource is registered, the
      lease stands, and a registered adapter takes it; it is on record then. */
  lemma AttachEffect(m: FabricState, adapter: string, lease: Lease, host: Host, binary: string)
    ensures var (response, m') := Dispatch(m, Attach(adapter, lease), host, binary);
            var rid := lease.resourceId;
            && (response.Attached? <==> && rid in m.resources && Standing(m, lease) && adapter in m.adapters
                                        && Takes(m, adapter, m.resources[rid], host))
            && (response.Attached? ==>
                  && m'.attachments == m.attachments[rid := adapter] && m'.leases == m.leases
                  && response.attachment.leaseId == lease.id && response.attachment.adapter == adapter
                  && response.attachment.resourceId == m.resources[rid].id)
            && (!response.Attached? ==> response.Error? && m' == m)
            && (rid in m.resources && !Standing(m, lease) ==> response == Error(FromFabric(LeaseNotFound)))
  {
    var (answer, m') := Spec.Attach(m, adapter, lease, host, binary);
    AttachAnswers(m, adapter, lease, host, binary, answer, m');
  }

  /** After any run the inventory lists exactly the registered resources, each once, under
      its own id. */
  lemma InventoryEffect(calls: seq<FabricRuns.Call>, host: Host, binary: string, r: Resource)
    ensures var m := FabricRuns.Play(calls).state;
            var (response, m') := Dispatch(m, Inventory, host, binary);
            m' == m && response.Resources? && (r in response.all <==> Get(m.resources, r.id) == Some(r))
  {
    FabricRuns.LeasedMeansRegistered(calls);
  }

  /** A query is answered with exactly the resources that fit it and are free. */
  lemma FindEffect(m: FabricState, query: Spec.ResourceRequest, host: Host, binary: string, r: Resource)
    ensures var (response, m') := Dispatch(m, FindAvailable(query), host, binary);
            && m' == m && response.Offered?
            && (r in response.found <==>
                  && (exists id :: id in m.resources && m.resources[id] == r)
                  && r.state == Available
                  && (query.kind == None || query.kind == Some(r.kind))
                  && (query.minimumCapacity.Some? ==> query.minimumCapacity.value <= r.capacity)
                  && (query.node == None || query.node == Some(r.node))
                  && (query.exclusive ==> r.exclusive)
                  && (forall k :: k in query.requiredAttributes ==>
                        k in r.attributes && r.attributes[k] == query.requiredAttributes[k])
                  && (r.exclusive ==> r.id !in m.leases))
  {
    FindAvailableIsExact(m, query, r);
  }

  /** A heartbeat is answered, and an eviction in the same state or later, within its bound,
      neither lists the node nor takes its resources. */
  lemma HeartbeatEffect(m: FabricState, node: string, host: Host, binary: string, ticks: nat, olderThan: nat,
                        id: string)
    requires ticks <= olderThan
    ensures var (response, m') := Dispatch(m, Heartbeat(node), host, binary);
            var (stale, m'') := Spec.Evict(Waited(m', ticks), olderThan);
            && response == Pong && m' == m.(heartbeats := m'.heartbeats)
            && node !in stale
            && (id in m.resources && m.resources[id].node == node ==> Get(m''.resources, id) == Get(m.resources, id))
  {
  }

  lemma PingEffect(m: FabricState, host: Host, binary: string)
    ensures Dispatch(m, Ping, host, binary) == (Pong, m)
  {
  }

  // -------------------------------------------------------- sessions are runs

  /** The whole call a request comes to, if it touches the fabric at all. */
  function CallFor(request: RpcRequest, host: Host): Option<FabricRuns.Call> {
    match request
    case LeaseExclusive(rid, owner, ttlSecs) => Some(FabricRuns.LeaseCall(rid, owner, Ticks(ttlSecs)))
    case Attach(adapter, lease) => Some(FabricRuns.AttachCall(adapter, lease, host))
    case Release(lease) => Some(FabricRuns.ReleaseCall(lease))
    case LeaseRenew(lease, ttlSecs) => Some(FabricRuns.RenewCall(lease, Ticks(ttlSecs)))
    case Heartbeat(node) => Some(FabricRuns.HeartbeatCall(node))
    case _ => None
  }

  function CallsFor(auth: AuthProvider, request: RpcRequest, around: Surroundings): seq<FabricRuns.Call> {
    var call := if Authorize(auth, request).Err? then None else CallFor(request, around.host);
    [FabricRuns.WaitCall(around.ticks)] + if call.Some? then [call.value] else []
  }

  lemma OneMoreCall(calls: seq<FabricRuns.Call>, call: FabricRuns.Call)
    ensures FabricRuns.Play(calls + [call]).state == FabricRuns.Apply(FabricRuns.Play(calls).state, call)
  {
    assert (calls + [call])[..|calls|] == calls;
  }

  /** What an attach leaves does not depend on where the VMM binary is. */
  lemma BinaryDoesNotMatter(m: FabricState, adapter: string, lease: Lease, host: Host, binary: string)
    ensures Spec.Attach(m, adapter, lease, host, binary).1 == Spec.Attach(m, adapter, lease, host, "").1
  {
    if adapter in m.adapters && m.adapters[adapter] == CloudHypervisor && lease.resourceId in m.resources {
      var r := m.resources[lease.resourceId];
      var (a, m1) := Spec.AdapterAttach(m, adapter, r, lease, host, binary);
      var (b, m2) := Spec.AdapterAttach(m, adapter, r, lease, host, "");
      assert m1 == m2 == m.(managed := Spec.VmAttach(m.managed, adapter, r, host).1);
    }
  }

  lemma DispatchIsCall(m: FabricState, request: RpcRequest, host: Host, binary: string, m': FabricState)
    requires m' == Dispatch(m, request, host, binary).1
    ensures m' == match CallFor(request, host) case Some(call) => FabricRuns.Apply(m, call) case None => m
  {
    if request.Attach? {
      BinaryDoesNotMatter(m, request.adapter, request.lease, host, binary);
    }
  }

  function Applied(m: FabricState, call: Option<FabricRuns.Call>): FabricState {
    match call case Some(c) => FabricRuns.Apply(m, c) case None => m
  }

  lemma WaitThenCall(calls: seq<FabricRuns.Call>, ticks: nat, call: Option<FabricRuns.Call>, m: FabricState)
    requires m == Waited(FabricRuns.Play(calls).state, ticks)
    ensures var more := [FabricRuns.WaitCall(ticks)] + if call.Some? then [call.value] else [];
            FabricRuns.Play(calls + more).state == Applied(m, call)
  {
    var wait := FabricRuns.WaitCall(ticks);
    OneMoreCall(calls, wait);
    if call.Some? {
      OneMoreCall(calls + [wait], call.value);
      assert calls + ([wait] + [call.value]) == (calls + [wait]) + [call.value];
    } else {
      assert [wait] + [] == [wait];
    }
  }

  lemma AnswerApplies(auth: AuthProvider, m: FabricState, request: RpcRequest, host: Host, binary: string,
                      call: Option<FabricRuns.Call>)
    requires call == if Authorize(auth, request).Err? then None else CallFor(request, host)
    ensures Answer(auth, m, request, host, binary).1 == Applied(m, call)
  {
    if Authorize(auth, request).Ok? {
      DispatchIsCall(m, request, host, binary, Dispatch(m, request, host, binary).1);
    }
  }

  lemma AnswerIsCalls(calls: seq<FabricRuns.Call>, auth: AuthProvider, request: RpcRequest, around: Surroundings,
                      binary: string, m: FabricState)
    requires m == Waited(FabricRuns.Play(calls).state, around.ticks)
    ensures FabricRuns.Play(calls + CallsFor(auth, request, around)).state
         == Answer(auth, m, request, around.host, binary).1
  {
    var call := if Authorize(auth, request).Err? then None else CallFor(request, around.host);
    WaitThenCall(calls, around.ticks, call, m);
    AnswerApplies(auth, m, request, around.host, binary, call);
  }

  /** Every RPC session is a run of whole calls: what holds over all those runs holds after
      every session. */
  lemma {:induction false} SessionIsARun(calls: seq<FabricRuns.Call>, auth: AuthProvider, requests: seq<RpcRequest>,
                                         env: nat -> Surroundings, i: nat, binary: string)
    returns (more: seq<FabricRuns.Call>)
    ensures FabricRuns.Play(calls + more).state
         == Fold(auth, FabricRuns.Play(calls).state, requests, env, i, binary).1
    decreases |requests|
  {
    if requests == [] {
      more := [];
      assert calls + [] == calls;
    } else {
      var first := CallsFor(auth, requests[0], env(i));
      AnswerIsCalls(calls, auth, requests[0], env(i), binary, Waited(FabricRuns.Play(calls).state, env(i).ticks));
      var rest := SessionIsARun(calls + first, auth, requests[1..], env, i + 1, binary);
      more := first + rest;
      assert calls + (first + rest) == (calls + first) + rest;
    }
  }

  // -------------------------------------------------- a lease over a session

  /** The id was granted, and no entry of the table has it. */
  ghost predicate Gone(m: FabricState, id: nat) {
    id <= m.nextLeaseId && forall rid :: rid in m.leases ==> m.leases[rid].lease.id != id
  }

  lemma DispatchKeepsGone(m: FabricState, request: RpcRequest, host: Host, binary: string, id: nat, m': FabricState)
    requires Gone(m, id) && m' == Dispatch(m, request, host, binary).1
    ensures Gone(m', id) && m'.resources == m.resources
  {
    match request
    case LeaseExclusive(rid, owner, ttlSecs) => GrantKeepsGone(m, rid, owner, Ticks(ttlSecs), id);
    case LeaseRenew(lease, ttlSecs) => RenewAnswers(m, lease, Ticks(ttlSecs));
    case Attach(adapter, lease) => FabricRuns.AttachKeepsTables(m, adapter, lease, host, binary, m');
    case _ =>
  }

  lemma GrantKeepsGone(m: FabricState, rid: string, owner: string, ttl: nat, id: nat)
    requires Gone(m, id)
    ensures var m' := Spec.LeaseExclusive(m, rid, owner, ttl).1; Gone(m', id) && m'.resources == m.resources
  {
  }

  lemma {:induction false} SessionKeepsGone(auth: AuthProvider, m: FabricState, requests: seq<RpcRequest>,
                                            env: nat -> Surroundings, i: nat, binary: string, id: nat)
    requires Gone(m, id)
    ensures var m' := Fold(auth, m, requests, env, i, binary).1; Gone(m', id) && m'.resources == m.resources
    decreases |requests|
  {
    if requests != [] {
      var waited := Waited(m, env(i).ticks);
      var m1 := Answer(auth, waited, requests[0], env(i).host, binary).1;
      if Authorize(auth, requests[0]).Ok? {
        DispatchKeepsGone(waited, requests[0], env(i).host, binary, id, m1);
      }
      SessionKeepsGone(auth, m1, requests[1..], env, i + 1, binary, id);
    }
  }

  /** Each request that presents the lease is answered LeaseNotFound. */
  predicate Refused(m: FabricState, lease: Lease, adapter: string, ttlSecs: nat, host: Host, binary: string) {
    && Dispatch(m, Release(lease), host, binary).0 == Error(FromFabric(LeaseNotFound))
    && Dispatch(m, LeaseRenew(lease, ttlSecs), host, binary).0 == Error(FromFabric(LeaseNotFound))
    && Dispatch(m, Attach(adapter, lease), host, binary).0 == Error(FromFabric(LeaseNotFound))
  }

  lemma GoneIsRefused(m: FabricState, lease: Lease, adapter: string, ttlSecs: nat, host: Host, binary: string)
    requires Gone(m, lease.id) && lease.resourceId in m.resources
    ensures Refused(m, lease, adapter, ttlSecs, host, binary)
  {
    RenewEffect(m, lease, ttlSecs, host, binary);
    AttachEffect(m, adapter, lease, host, binary);
  }

  lemma GrantedIsNumbered(calls: seq<FabricRuns.Call>, rid: string)
    ensures var m := FabricRuns.Play(calls).state;
            rid in m.leases ==>
              && m.leases[rid].lease.id <= m.nextLeaseId && m.leases[rid].lease.resourceId == rid
              && forall other :: other in m.leases && m.leases[other].lease.id == m.leases[rid].lease.id ==>
                   other == rid
  {
    FabricRuns.LeasedMeansRegistered(calls);
    var m, granted := FabricRuns.Play(calls).state, FabricRuns.Play(calls).ledger.granted;
    if rid in m.leases {
      assert FabricRuns.EntryOk(rid, m.leases[rid].lease, m.resources.Keys, granted);
      forall other | other in m.leases && m.leases[other].lease.id == m.leases[rid].lease.id
        ensures other == rid
      {
        assert FabricRuns.EntryOk(other, m.leases[other].lease, m.resources.Keys, granted);
      }
    }
  }

  /** A released lease is over: the resource can be leased again at once, and whatever
      requests follow, of whomever, the old lease is refused at every one. */
  lemma ReleasedIsOver(calls: seq<FabricRuns.Call>, lease: Lease, around: Host, binary: string,
                       auth: AuthProvider, requests: seq<RpcRequest>, env: nat -> Surroundings, i: nat,
                       owner: string, ttlSecs: nat, adapter: string, host: Host)
    requires Dispatch(FabricRuns.Play(calls).state, Release(lease), around, binary).0 == Released
    ensures var m := Dispatch(FabricRuns.Play(calls).state, Release(lease), around, binary).1;
            && lease.resourceId in m.resources && lease.resourceId !in m.leases
            && (m.resources[lease.resourceId].state == Available && m.resources[lease.resourceId].exclusive ==>
                  Dispatch(m, LeaseExclusive(lease.resourceId, owner, ttlSecs), host, binary).0.Leased?)
            && Refused(Fold(auth, m, requests, env, i, binary).1, lease, adapter, ttlSecs, host, binary)
  {
    var m0 := FabricRuns.Play(calls).state;
    var m := Dispatch(m0, Release(lease), around, binary).1;
    ReleaseEffect(calls, lease, around, binary);
    GrantedIsNumbered(calls, lease.resourceId);
    FabricRuns.LeasedMeansRegistered(calls);
    FabricRuns.LeasesRegistered(m0, FabricRuns.Play(calls).ledger.granted);
    LeaseEffect(m, lease.resourceId, owner, ttlSecs, host, binary);
    SessionKeepsGone(auth, m, requests, env, i, binary, lease.id);
    GoneIsRefused(Fold(auth, m, requests, env, i, binary).1, lease, adapter, ttlSecs, host, binary);
  }

  lemma DispatchKeepsResources(m: FabricState, request: RpcRequest, host: Host, binary: string)
    ensures Dispatch(m, request, host, binary).1.resources == m.resources
  {
    if request.Attach? {
      FabricRuns.AttachKeepsTables(m, request.adapter, request.lease, host, binary,
                                   Spec.Attach(m, request.adapter, request.lease, host, binary).1);
    }
  }

  lemma {:induction false} SessionKeepsResources(auth: AuthProvider, m: FabricState, requests: seq<RpcRequest>,
                                                 env: nat -> Surroundings, i: nat, binary: string)
    ensures Fold(auth, m, requests, env, i, binary).1.resources == m.resources
    decreases |requests|
  {
    if requests != [] {
      var waited := Waited(m, env(i).ticks);
      DispatchKeepsResources(waited, requests[0], env(i).host, binary);
      SessionKeepsResources(auth, Answer(auth, waited, requests[0], env(i).host, binary).1, requests[1..], env, i + 1,
                            binary);
    }
  }

  /** The states of a session that is granted a lease and later asks for its release: as
      the grant leaves it, as the release finds it, and as the release leaves it. */
  ghost predicate GrantsThenReleases(calls: seq<FabricRuns.Call>, rid: string, owner: string, ttlSecs: nat,
                                     auth: AuthProvider, between: seq<RpcRequest>, env: nat -> Surroundings,
                                     binary: string, lease: Lease, m1: FabricState, m2: FabricState,
                                     response: RpcResponse, m3: FabricState)
  {
    var start, last := Waited(FabricRuns.Play(calls).state, env(0).ticks), env(1 + |between|);
    && Answer(auth, start, LeaseExclusive(rid, owner, ttlSecs), env(0).host, binary) == (Leased(lease), m1)
    && m2 == Waited(Fold(auth, m1, between, env, 1, binary).1, last.ticks)
    && (response, m3) == Answer(auth, m2, Release(lease), last.host, binary)
  }

  lemma SessionIsReachable(calls: seq<FabricRuns.Call>, rid: string, owner: string, ttlSecs: nat,
                           auth: AuthProvider, between: seq<RpcRequest>, env: nat -> Surroundings, binary: string,
                           lease: Lease, m1: FabricState, m2: FabricState, response: RpcResponse, m3: FabricState)
    returns (run: seq<FabricRuns.Call>)
    requires GrantsThenReleases(calls, rid, owner, ttlSecs, auth, between, env, binary, lease, m1, m2, response, m3)
    ensures FabricRuns.Play(run).state == m2
  {
    var request, start := LeaseExclusive(rid, owner, ttlSecs), Waited(FabricRuns.Play(calls).state, env(0).ticks);
    var granted := calls + CallsFor(auth, request, env(0));
    AnswerIsCalls(calls, auth, request, env(0), binary, start);
    var more := SessionIsARun(granted, auth, between, env, 1, binary);
    OneMoreCall(granted + more, FabricRuns.WaitCall(env(1 + |between|).ticks));
    run := granted + more + [FabricRuns.WaitCall(env(1 + |between|).ticks)];
  }

  lemma LeasedStaysFit(calls: seq<FabricRuns.Call>, rid: string, owner: string, ttlSecs: nat,
                       auth: AuthProvider, between: seq<RpcRequest>, env: nat -> Surroundings, binary: string,
                       lease: Lease, m1: FabricState, m2: FabricState, response: RpcResponse, m3: FabricState)
    requires GrantsThenReleases(calls, rid, owner, ttlSecs, auth, between, env, binary, lease, m1, m2, response, m3)
    ensures lease.resourceId == rid && rid in m2.resources
    ensures m2.resources[rid].state == Available && m2.resources[rid].exclusive
  {
    var request, start := LeaseExclusive(rid, owner, ttlSecs), Waited(FabricRuns.Play(calls).state, env(0).ticks);
    LeaseEffect(start, rid, owner, ttlSecs, env(0).host, binary);
    DispatchKeepsResources(start, request, env(0).host, binary);
    SessionKeepsResources(auth, m1, between, env, 1, binary);
  }

  /** In every session that is granted a lease and later releases it, whoever does what in
      between and after: the release is answered Released exactly if the table still has
      the lease, and then it is gone, the resource can be leased again, and whatever
      follows, the old lease is refused at every request that presents it. */
  lemma GrantedThenReleased(calls: seq<FabricRuns.Call>, rid: string, owner: string, ttlSecs: nat,
                            auth: AuthProvider, between: seq<RpcRequest>, env: nat -> Surroundings, binary: string,
                            lease: Lease, m1: FabricState, m2: FabricState, response: RpcResponse, m3: FabricState,
                            after: seq<RpcRequest>, i: nat, adapter: string, host: Host)
    requires GrantsThenReleases(calls, rid, owner, ttlSecs, auth, between, env, binary, lease, m1, m2, response, m3)
    ensures response == Released <==> rid in m2.leases && m2.leases[rid].lease.id == lease.id
    ensures response != Released ==> response == Error(FromFabric(LeaseNotFound)) && m3 == m2
    ensures response == Released ==>
              && rid !in m3.leases
              && Dispatch(m3, LeaseExclusive(rid, owner, ttlSecs), host, binary).0.Leased?
              && Refused(Fold(auth, m3, after, env, i, binary).1, lease, adapter, ttlSecs, host, binary)
  {
    var run := SessionIsReachable(calls, rid, owner, ttlSecs, auth, between, env, binary, lease, m1, m2, response, m3);
    LeasedStaysFit(calls, rid, owner, ttlSecs, auth, between, env, binary, lease, m1, m2, response, m3);
    var last := env(1 + |between|);
    ReleaseEffect(run, lease, last.host, binary);
    if response == Released {
      ReleasedIsOver(run, lease, last.host, binary, auth, after, env, i, owner, ttlSecs, adapter, host);
    }
  }
}
