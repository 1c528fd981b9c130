/** What every run of whole calls keeps. */
module FabricRuns {
  import opened FabricTypes
  import opened FabricState
  import opened FabricSpec
  import Order
  import Store

  datatype Call =
    | RegisterCall(resource: Resource)
    | UnregisterCall(id: string)
    | RefreshCall(discovered: seq<Resource>)
    | EvictCall(olderThan: nat)
    | HeartbeatCall(node: string)
    | AdapterCall(name: string, kind: AdapterKind)
    | LeaseCall(resourceId: string, owner: string, ttl: nat)
    | RenewCall(lease: Lease, ttl: nat)
    | AttachCall(adapter: string, lease: Lease, host: Host)
    | ReleaseCall(lease: Lease)
    | WaitCall(ticks: nat)

  function Apply(m: FabricState, call: Call): FabricState {
    match call
    case RegisterCall(r) => Register(m, r)
    case UnregisterCall(id) => Unregister(m, id).1
    case RefreshCall(discovered) => Refresh(m, discovered).1
    case EvictCall(olderThan) => Evict(m, olderThan).1
    case HeartbeatCall(node) => Heartbeat(m, node)
    case AdapterCall(name, kind) => m.(adapters := m.adapters[name := kind])
    case LeaseCall(rid, owner, ttl) => LeaseExclusive(m, rid, owner, ttl).1
    case RenewCall(lease, ttl) => RenewLease(m, lease, ttl).1
    case AttachCall(adapter, lease, host) => Attach(m, adapter, lease, host, "").1
    case ReleaseCall(lease) => Release(m, lease).1
    case WaitCall(ticks) => m.(now := m.now + ticks)
  }

  /** What the callers were told: the resource each granted id was for, and the
      leases the store attached and no release has ended. */
  datatype Ledger = Ledger(granted: map<nat, string>, attached: set<nat>)

  function Note(m: FabricState, l: Ledger, call: Call): Ledger {
    match call
    case LeaseCall(rid, owner, ttl) =>
      (match LeaseExclusive(m, rid, owner, ttl).0
       case Ok(lease) => l.(granted := l.granted[lease.id := rid])
       case Err(_) => l)
    case AttachCall(adapter, lease, host) =>
      if Attach(m, adapter, lease, host, "").0.Ok? && adapter in m.adapters && m.adapters[adapter] == FabricStore
      then l.(attached := l.attached + {lease.id}) else l
    case ReleaseCall(lease) =>
      if Release(m, lease).0.Ok? then l.(attached := l.attached - {lease.id}) else l
    case _ => l
  }

  datatype Run = Run(state: FabricState, ledger: Ledger)

  function Play(calls: seq<Call>): Run
    decreases |calls|
  {
    if calls == [] then Run(EMPTY, Ledger(map[], {}))
    else
      var before := Play(calls[..|calls| - 1]);
      var call := calls[|calls| - 1];
      Run(Apply(before.state, call), Note(before.state, before.ledger, call))
  }

  // ------------------------------------------------ registry and lease table

  /** The entry under `rid` is a lease that was granted for it, and `rid` is registered. */
  predicate EntryOk(rid: string, lease: Lease, registered: set<string>, granted: map<nat, string>) {
    && rid in registered
    && lease.resourceId == rid
    && lease.id in granted && granted[lease.id] == rid
  }

  ghost predicate TableOk(leases: map<string, ActiveLease>, registered: set<string>, granted: map<nat, string>) {
    forall rid {:trigger EntryOk(rid, leases[rid].lease, registered, granted)} ::
      rid in leases ==> EntryOk(rid, leases[rid].lease, registered, granted)
  }

  ghost predicate RegistryOk(resources: map<string, Resource>) {
    forall id :: id in resources ==> resources[id].id == id
  }

  ghost predicate GrantedOk(granted: map<nat, string>, next: nat) {
    forall id :: id in granted ==> 1 <= id <= next
  }

  ghost predicate Agrees(m: FabricState, granted: map<nat, string>) {
    RegistryOk(m.resources) && TableOk(m.leases, m.resources.Keys, granted) && GrantedOk(granted, m.nextLeaseId)
  }

  lemma {:induction false} LastWithHasId(rs: seq<Resource>, id: string)
    requires id in Ids(rs)
    ensures LastWith(rs, id).id == id && LastWith(rs, id) in rs
    decreases |rs|
  {
    var r :| r in rs && r.id == id;
    var last := rs[|rs| - 1];
    if last.id != id {
      assert rs == rs[..|rs| - 1] + [last] && r in rs[..|rs| - 1];
      LastWithHasId(rs[..|rs| - 1], id);
    }
  }

  lemma RefreshKeepsRegistry(m: FabricState, discovered: seq<Resource>)
    requires RegistryOk(m.resources)
    ensures RegistryOk(Refreshed(m, discovered)) && m.resources.Keys * m.leases.Keys <= Refreshed(m, discovered).Keys
  {
    var after := Refreshed(m, discovered);
    forall id | id in after ensures after[id].id == id {
      if id !in m.resources {
        LastWithHasId(discovered, id);
      }
    }
  }

  predicate SameTables(m: FabricState, m': FabricState) {
    && m'.resources == m.resources && m'.leases == m.leases && m'.nextLeaseId == m.nextLeaseId
    && m'.adapters == m.adapters
  }

  lemma AdapterKeepsTables(m: FabricState, adapter: string, r: Resource, lease: Lease, host: Host, binary: string,
                           m': FabricState)
    requires adapter in m.adapters && m' == AdapterAttach(m, adapter, r, lease, host, binary).1
    ensures SameTables(m, m') && m'.attachments == m.attachments
  {
    if m.adapters[adapter] == CloudHypervisor {
      assert m' == m.(managed := VmAttach(m.managed, adapter, r, host).1);
    }
  }

  lemma AttachKeepsTables(m: FabricState, adapter: string, lease: Lease, host: Host, binary: string, m': FabricState)
    requires m' == Attach(m, adapter, lease, host, binary).1
    ensures SameTables(m, m')
  {
    if lease.resourceId in m.resources && adapter in m.adapters {
      var r := m.resources[lease.resourceId];
      AdapterKeepsTables(m, adapter, r, lease, host, binary, AdapterAttach(m, adapter, r, lease, host, binary).1);
    }
  }

  /** The table keeps agreeing when entries go, or ids they do not use come and go. */
  lemma FewerEntries(leases: map<string, ActiveLease>, registered: set<string>, granted: map<nat, string>,
                     leases': map<string, ActiveLease>, registered': set<string>)
    requires TableOk(leases, registered, granted)
    requires forall rid :: rid in leases' ==> rid in leases && leases'[rid].lease == leases[rid].lease
    requires registered * leases.Keys <= registered'
    ensures TableOk(leases', registered', granted)
  {
    forall rid | rid in leases' ensures EntryOk(rid, leases'[rid].lease, registered', granted) {
      assert EntryOk(rid, leases[rid].lease, registered, granted);
    }
  }

  lemma OneMoreEntry(leases: map<string, ActiveLease>, registered: set<string>, granted: map<nat, string>,
                     next: nat, active: ActiveLease)
    requires TableOk(leases, registered, granted) && GrantedOk(granted, next)
    requires active.lease.id == next + 1 && active.lease.resourceId in registered
    ensures TableOk(leases[active.lease.resourceId := active], registered, granted[next + 1 := active.lease.resourceId])
  {
    var leases' := leases[active.lease.resourceId := active];
    var granted' := granted[next + 1 := active.lease.resourceId];
    forall rid | rid in leases' ensures EntryOk(rid, leases'[rid].lease, registered, granted') {
      if rid != active.lease.resourceId {
        assert EntryOk(rid, leases[rid].lease, registered, granted);
      }
    }
  }

  lemma LeaseAgrees(m: FabricState, l: Ledger, rid: string, owner: string, ttl: nat, m': FabricState, l': Ledger)
    requires Agrees(m, l.granted) && m' == LeaseExclusive(m, rid, owner, ttl).1
    requires l' == Note(m, l, LeaseCall(rid, owner, ttl))
    ensures Agrees(m', l'.granted)
  {
    var answer := LeaseExclusive(m, rid, owner, ttl).0;
    var pruned := Prune(m).leases;
    FewerEntries(m.leases, m.resources.Keys, l.granted, pruned, m.resources.Keys);
    if answer.Ok? {
      var active := ActiveLease(answer.value, m.now + ttl);
      GrantEffect(m, rid, owner, ttl, answer.value, m');
      OneMoreEntry(pruned, m.resources.Keys, l.granted, m.nextLeaseId, active);
    } else {
      RefusalEffect(m, rid, owner, ttl, m');
    }
  }

  lemma GrantEffect(m: FabricState, rid: string, owner: string, ttl: nat, lease: Lease, m': FabricState)
    requires LeaseExclusive(m, rid, owner, ttl) == (Ok(lease), m')
    ensures lease == Lease(m.nextLeaseId + 1, rid, owner) && rid in m.resources
    ensures m'.resources == m.resources && m'.nextLeaseId == lease.id
    ensures m'.leases == Prune(m).leases[rid := ActiveLease(lease, m.now + ttl)]
  {
  }

  lemma RefusalEffect(m: FabricState, rid: string, owner: string, ttl: nat, m': FabricState)
    requires LeaseExclusive(m, rid, owner, ttl).0.Err? && m' == LeaseExclusive(m, rid, owner, ttl).1
    ensures m' == m || m' == Prune(m)
  {
  }

  lemma RenewAgrees(m: FabricState, granted: map<nat, string>, lease: Lease, ttl: nat, m': FabricState)
    requires Agrees(m, granted) && m' == RenewLease(m, lease, ttl).1
    ensures Agrees(m', granted)
  {
    FewerEntries(m.leases, m.resources.Keys, granted, m'.leases, m'.resources.Keys);
  }

  lemma ReleaseAgrees(m: FabricState, granted: map<nat, string>, lease: Lease, m': FabricState)
    requires Agrees(m, granted) && m' == Release(m, lease).1
    ensures Agrees(m', granted)
  {
    FewerEntries(m.leases, m.resources.Keys, granted, m'.leases, m'.resources.Keys);
  }

  lemma RefreshAgrees(m: FabricState, granted: map<nat, string>, discovered: seq<Resource>, m': FabricState)
    requires Agrees(m, granted) && m' == m.(resources := Refreshed(m, discovered))
    ensures Agrees(m', granted)
  {
    RefreshKeepsRegistry(m, discovered);
    FewerEntries(m.leases, m.resources.Keys, granted, m'.leases, m'.resources.Keys);
  }

  lemma RegistryAgrees(m: FabricState, granted: map<nat, string>, m': FabricState)
    requires Agrees(m, granted) && m'.leases == m.leases && m'.nextLeaseId == m.nextLeaseId
    requires RegistryOk(m'.resources) && m.resources.Keys * m.leases.Keys <= m'.resources.Keys
    ensures Agrees(m', granted)
  {
    FewerEntries(m.leases, m.resources.Keys, granted, m'.leases, m'.resources.Keys);
  }

  lemma EvictAgrees(m: FabricState, granted: map<nat, string>, olderThan: nat, m': FabricState)
    requires Agrees(m, granted) && m' == Evict(m, olderThan).1
    ensures Agrees(m', granted)
  {
    RegistryAgrees(m, granted, m');
  }

  lemma UnregisterAgrees(m: FabricState, granted: map<nat, string>, id: string, m': FabricState)
    requires Agrees(m, granted) && m' == Unregister(m, id).1
    ensures Agrees(m', granted)
  {
    if id !in m.leases {
      var resources' := m.resources - {id};
      assert RegistryOk(resources') && m.resources.Keys * m.leases.Keys <= resources'.Keys;
      assert m' == m.(resources := resources');
      RegistryAgrees(m, granted, m');
    }
  }

  lemma CallAgrees(m: FabricState, l: Ledger, call: Call, m': FabricState, l': Ledger)
    requires Agrees(m, l.granted) && m' == Apply(m, call) && l' == Note(m, l, call)
    ensures Agrees(m', l'.granted)
  {
    match call
    case LeaseCall(rid, owner, ttl) => LeaseAgrees(m, l, rid, owner, ttl, m', l');
    case RenewCall(lease, ttl) => RenewAgrees(m, l.granted, lease, ttl, m');
    case ReleaseCall(lease) => ReleaseAgrees(m, l.granted, lease, m');
    case AttachCall(adapter, lease, host) => AttachKeepsTables(m, adapter, lease, host, "", m');
    case HeartbeatCall(_) =>
    case AdapterCall(_, _) =>
    case WaitCall(_) =>
    case RefreshCall(discovered) => RefreshAgrees(m, l.granted, discovered, m');
    case RegisterCall(_) => RegistryAgrees(m, l.granted, m');
    case UnregisterCall(id) => UnregisterAgrees(m, l.granted, id, m');
    case EvictCall(olderThan) => EvictAgrees(m, l.granted, olderThan, m');
  }

  /** Over every run of whole calls every lease-table key is a registered resource,
      registered under its own id, and the entry is a lease granted for it. */
  lemma {:induction false} LeasedMeansRegistered(calls: seq<Call>)
    ensures Agrees(Play(calls).state, Play(calls).ledger.granted)
    decreases |calls|
  {
    if calls != [] {
      var before := Play(calls[..|calls| - 1]);
      LeasedMeansRegistered(calls[..|calls| - 1]);
      CallAgrees(before.state, before.ledger, calls[|calls| - 1], Play(calls).state, Play(calls).ledger);
    }
  }

  // --------------------------------------------------------------- refresh

  /** A refresh with discovery D ends with the ids of D and the leased ids that D
      lacks. Its report names exactly the differences, each once and in order; what
      stays keeps its entry, what comes gets the last one D has under its id, and
      repeating the refresh changes nothing and is blocked by the same leases. */
  lemma RefreshIsExact(m: FabricState, discovered: seq<Resource>)
    ensures var (report, m') := Refresh(m, discovered);
            var known, d := m.resources.Keys, Ids(discovered);
            && m'.resources.Keys == d + (known - d) * m.leases.Keys
            && m'.leases == m.leases
            && (set id | id in report.added) == d - known
            && (set id | id in report.removed) == known - m'.resources.Keys
            && (set id | id in report.blockedByLease) == m'.resources.Keys - d
            && Order.Ascending(report.added) && Order.Ascending(report.removed)
            && Order.Ascending(report.blockedByLease)
            && (forall id :: id in known * m'.resources.Keys ==> m'.resources[id] == m.resources[id])
            && (forall id :: id in d - known ==>
                  m'.resources[id].id == id && m'.resources[id] in discovered)
            && Refresh(m', discovered) == (RefreshReport([], [], report.blockedByLease), m')
  {
    RefreshedKeys(m, discovered, Refreshed(m, discovered));
    forall id | id in Ids(discovered) - m.resources.Keys
      ensures LastWith(discovered, id).id == id && LastWith(discovered, id) in discovered
    {
      LastWithHasId(discovered, id);
    }
    RefreshedAgain(m, discovered, Refresh(m, discovered).1);
  }

  /** A newcomer is registered as the last of its entries in the discovery. */
  lemma {:induction false} NewcomersAreTheLast(discovered: seq<Resource>, id: string) returns (k: nat)
    requires id in Ids(discovered)
    ensures k < |discovered| && discovered[k].id == id && LastWith(discovered, id) == discovered[k]
    ensures forall j :: k < j < |discovered| ==> discovered[j].id != id
    decreases |discovered|
  {
    var n := |discovered| - 1;
    k := n;
    if discovered[n].id != id {
      assert discovered == discovered[..n] + [discovered[n]];
      var r :| r in discovered && r.id == id;
      assert r in discovered[..n];
      k := NewcomersAreTheLast(discovered[..n], id);
    }
  }

  lemma RefreshedKeys(m: FabricState, discovered: seq<Resource>, after: map<string, Resource>)
    requires after == Refreshed(m, discovered)
    ensures var known, d := m.resources.Keys, Ids(discovered);
            && after.Keys == d + (known - d) * m.leases.Keys
            && (known - d) - m.leases.Keys == known - after.Keys
            && (known - d) * m.leases.Keys == after.Keys - d
  {
  }

  lemma RefreshedAgain(m: FabricState, discovered: seq<Resource>, m': FabricState)
    requires m' == m.(resources := Refreshed(m, discovered))
    ensures Refresh(m', discovered)
         == (RefreshReport([], [], Order.Sorted((m.resources.Keys - Ids(discovered)) * m.leases.Keys)), m')
  {
    var gone := m.resources.Keys - Ids(discovered);
    RefreshedKeys(m, discovered, m'.resources);
    assert Ids(discovered) - m'.resources.Keys == {};
    assert (m'.resources.Keys - Ids(discovered)) - m'.leases.Keys == {};
    assert (m'.resources.Keys - Ids(discovered)) * m'.leases.Keys == gone * m.leases.Keys;
    assert Refreshed(m', discovered) == m'.resources;
  }

  // ---------------------------------------------------------------- eviction

  /** After any run, evicting removes exactly the unleased resources of the nodes
      whose last beat is older than the bound: it touches no lease, no leased
      resource, no other node's resource, and forgets only those beats. */
  lemma EvictionIsExact(calls: seq<Call>, olderThan: nat, id: string)
    ensures var m := Play(calls).state;
            var (stale, m') := Evict(m, olderThan);
            && m'.leases == m.leases
            && (id in m.resources && id !in m'.resources <==>
                  && id in m.resources && id !in m.leases
                  && m.resources[id].node in m.heartbeats
                  && m.heartbeats[m.resources[id].node] + olderThan < m.now)
            && (id in m'.resources ==> id in m.resources && m'.resources[id] == m.resources[id])
            && (id in m.leases ==> id in m'.resources && m'.resources[id].id == id)
            && m'.heartbeats == m.heartbeats - stale
  {
    LeasedMeansRegistered(calls);
    LeasesRegistered(Play(calls).state, Play(calls).ledger.granted);
  }

  lemma LeasesRegistered(m: FabricState, granted: map<nat, string>)
    requires Agrees(m, granted)
    ensures m.leases.Keys <= m.resources.Keys
  {
    forall rid | rid in m.leases ensures rid in m.resources {
      assert EntryOk(rid, m.leases[rid].lease, m.resources.Keys, granted);
    }
  }

  // ------------------------------------------------------------ availability

  /** Whatever find_available offers exclusively can be leased in that same state. */
  lemma OfferedCanBeLeased(calls: seq<Call>, request: ResourceRequest, r: Resource, owner: string, ttl: nat)
    requires r in FindAvailable(Play(calls).state, request) && r.exclusive
    ensures var (answer, m') := LeaseExclusive(Play(calls).state, r.id, owner, ttl);
            && answer.Ok? && answer.value.resourceId == r.id
            && r.id in m'.leases && m'.leases[r.id] == ActiveLease(answer.value, m'.now + ttl)
  {
    LeasedMeansRegistered(calls);
  }

  /** After any run, a registered exclusive resource that satisfies a request can be
      leased exactly when it is offered, or is held back by nothing but a lapsed lease
      that no call has pruned yet. */
  lemma LeasableIffOfferedOrLapsed(calls: seq<Call>, request: ResourceRequest, rid: string, owner: string, ttl: nat)
    requires var m := Play(calls).state;
             rid in m.resources && Satisfies(request, m.resources[rid]) && m.resources[rid].exclusive
    ensures var m := Play(calls).state;
            LeaseExclusive(m, rid, owner, ttl).0.Ok? <==>
              m.resources[rid] in FindAvailable(m, request)
              || (rid in m.leases && m.leases[rid].expiresAt <= m.now)
  {
    LeasedMeansRegistered(calls);
    OfferedIffNoEntry(Play(calls).state, request, rid);
  }

  lemma OfferedIffNoEntry(m: FabricState, request: ResourceRequest, rid: string)
    requires RegistryOk(m.resources) && rid in m.resources
    requires Satisfies(request, m.resources[rid]) && m.resources[rid].exclusive
    ensures m.resources[rid] in FindAvailable(m, request) <==> rid !in m.leases
  {
    if rid !in m.leases {
      assert IsOffered(m, request, rid);
    }
  }

  // ------------------------------------------------------------- round trips

  predicate Leasable(m: FabricState, rid: string) {
    rid in m.resources && m.resources[rid].state == Available && m.resources[rid].exclusive
  }

  function Later(m: FabricState, ticks: nat): FabricState {
    m.(now := m.now + ticks)
  }

  /** The lease renews, and nobody else gets the resource, exactly for `ttl` ticks. */
  predicate StandsFor(m: FabricState, lease: Lease, ttl: nat, ticks: nat, other: string, next: nat) {
    && (RenewLease(Later(m, ticks), lease, next).0.Ok? <==> ticks < ttl)
    && (Leasable(m, lease.resourceId) ==>
          (LeaseExclusive(Later(m, ticks), lease.resourceId, other, next).0 == Err(ResourceAlreadyLeased)
           <==> ticks < ttl))
  }

  /** A grant and a renewal each make the lease stand for exactly the time asked,
      counted from the call, whatever deadline it had before. */
  lemma LeaseStandsForItsTtl(m: FabricState, rid: string, owner: string, ttl: nat, held: Lease, ticks: nat,
                             other: string, next: nat)
    ensures var (answer, m') := LeaseExclusive(m, rid, owner, ttl);
            answer.Ok? ==> answer.value.resourceId == rid && StandsFor(m', answer.value, ttl, ticks, other, next)
    ensures var (answer, m') := RenewLease(m, held, ttl);
            answer.Ok? ==> answer.value.id == held.id && StandsFor(m', held, ttl, ticks, other, next)
  {
    GrantStands(m, rid, owner, ttl, ticks, other, next);
    RenewalStands(m, held, ttl, ticks, other, next);
  }

  lemma EntryStands(m: FabricState, lease: Lease, ttl: nat, ticks: nat, other: string, next: nat)
    requires lease.resourceId in m.leases && m.leases[lease.resourceId].lease.id == lease.id
    requires m.leases[lease.resourceId].expiresAt == m.now + ttl
    ensures StandsFor(m, lease, ttl, ticks, other, next)
  {
  }

  lemma GrantStands(m: FabricState, rid: string, owner: string, ttl: nat, ticks: nat, other: string, next: nat)
    ensures var (answer, m') := LeaseExclusive(m, rid, owner, ttl);
            answer.Ok? ==> answer.value.resourceId == rid && StandsFor(m', answer.value, ttl, ticks, other, next)
  {
    var (answer, m') := LeaseExclusive(m, rid, owner, ttl);
    if answer.Ok? {
      EntryStands(m', answer.value, ttl, ticks, other, next);
    }
  }

  lemma RenewalStands(m: FabricState, lease: Lease, ttl: nat, ticks: nat, other: string, next: nat)
    ensures var (answer, m') := RenewLease(m, lease, ttl);
            answer.Ok? ==> answer.value.id == lease.id && StandsFor(m', lease, ttl, ticks, other, next)
  {
    var (answer, m') := RenewLease(m, lease, ttl);
    if answer.Ok? {
      EntryStands(m', lease, ttl, ticks, other, next);
    }
  }

  /** A successful release frees the resource at once, for good as far as the old lease
      is concerned: a second release, a renewal and an attach are all refused. */
  lemma ReleaseFreesTheResource(m: FabricState, lease: Lease, adapter: string, host: Host, owner: string, ttl: nat)
    requires Release(m, lease).0.Ok? && Leasable(m, lease.resourceId)
    ensures var m' := Release(m, lease).1;
            && LeaseExclusive(m', lease.resourceId, owner, ttl).0.Ok?
            && Release(m', lease) == (Err(LeaseNotFound), m')
            && RenewLease(m', lease, ttl).0 == Err(LeaseNotFound)
            && Attach(m', adapter, lease, host, "") == (Err(LeaseNotFound), m')
  {
  }

  /** Releasing undoes an attach through the store: both maps lose the entry, the lease
      goes, and everything else is as it was before the attach. */
  lemma ReleaseUndoesStoreAttach(m: FabricState, adapter: string, lease: Lease, host: Host)
    requires RegistryOk(m.resources) && adapter in m.adapters && m.adapters[adapter] == FabricStore
    requires Attach(m, adapter, lease, host, "").0.Ok?
    ensures var rid := lease.resourceId;
            Release(Attach(m, adapter, lease, host, "").1, lease)
            == (Ok(()), m.(attachments := m.attachments - {rid}, live := m.live - {lease.id},
                           leases := m.leases - {rid}))
  {
    var rid := lease.resourceId;
    var m' := Attach(m, adapter, lease, host, "").1;
    var found := Store.FromResource(m.resources[rid]).value;
    assert m' == m.(live := m.live[lease.id := found], attachments := m.attachments[rid := adapter]);
    assert m.live[lease.id := found] - {lease.id} == m.live - {lease.id};
    assert m.attachments[rid := adapter] - {rid} == m.attachments - {rid};
  }

  /** Whatever the host answers by then, a repeated attach of a VM resource launches
      nothing and changes nothing; it succeeds as long as the checks before it do. */
  lemma SecondVmAttachLaunchesNothing(managed: map<string, ManagedVm>, adapter: string, r: Resource, host: Host,
                                      again: Host)
    requires VmAttach(managed, adapter, r, host).0.Ok?
    ensures var managed' := VmAttach(managed, adapter, r, host).1;
            var (launched, after) := VmAttach(managed', adapter, r, again);
            && launched != Ok(true) && after == managed'
            && (launched == Ok(false) <==> VmPrecheck(adapter, r, again).Ok?)
  {
  }
}
