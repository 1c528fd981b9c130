/** The fabric as it is written: registries, tables and adapters updated in place. */
module Fabric {
  import opened FabricTypes
  import opened FabricState
  import Spec = FabricSpec
  import Order
  import Store

  /** Lease-gated store attach: the map of live attachments. */
  class StoreAdapter {
    var live: map<nat, Store.StoreResolution>

    constructor ()
      ensures live == map[]
    {
      live := map[];
    }

    method Attach(adapter: string, r: Resource, lease: Lease, host: Host)
      returns (answer: Result<map<string, string>, FabricError>)
      modifies this
      ensures match StorePrecheck(adapter, r, host)
              case Err(error) => answer == Err(error) && live == old(live)
              case Ok(store) => answer == Ok(Spec.StoreDetails(store)) && live == old(live)[lease.id := store]
    {
      var resolved := Store.FromResource(r);
      if resolved.Err? {
        return Err(resolved.error);
      }
      var store := resolved.value;
      if store.kind != Store.Nfs && !host.dirReady {
        return Err(AdapterBackendUnavailable(adapter, "cannot create directory"));
      }
      live := live[lease.id := store];
      answer := Ok(Spec.StoreDetails(store));
    }

    method Detach(r: Resource, lease: Lease) returns (answer: Result<(), FabricError>)
      modifies this
      ensures (answer, live) == Spec.StoreDetach(old(live), r, lease)
    {
      if lease.id !in live {
        return Ok(());
      }
      var store := live[lease.id];
      live := live - {lease.id};
      if store.resourceId == r.id {
        answer := Ok(());
      } else {
        live := live[lease.id := store];
        assert live == old(live);
        answer := Err(LeaseNotFound);
      }
    }
  }

  /** Turns a leased device into a running VM, and remembers which ones it runs. */
  class CloudHypervisorAdapter {
    const binary: string
    var managed: map<string, ManagedVm>
    var launched: seq<string>  // resource ids handed to the launcher, in order

    constructor (binary: string)
      ensures this.binary == binary && managed == map[] && launched == []
    {
      this.binary := binary;
      managed := map[];
      launched := [];
    }

    method RecordManaged(r: Resource)
      modifies this`managed
      ensures managed == old(managed)[r.id := VmRecordOf(r)]
    {
      managed := managed[r.id := VmRecordOf(r)];
    }

    method Attach(adapter: string, r: Resource, host: Host) returns (answer: Result<map<string, string>, FabricError>)
      modifies this
      ensures var (outcome, after) := Spec.VmAttach(old(managed), adapter, r, host);
              && managed == after
              && (match outcome
                  case Err(error) => answer == Err(error) && launched == old(launched)
                  case Ok(isNew) =>
                    && answer == Ok(Spec.VmDetails(binary, r, isNew))
                    && launched == if isNew then old(launched) + [r.id] else old(launched))
      ensures answer.Ok? && answer.value["vmm.launched_by_adapter"] == "true" <==> launched == old(launched) + [r.id]
    {
      var checked := VmPrecheck(adapter, r, host);
      if checked.Err? {
        return Err(checked.error);
      }
      if IsManaged(managed, r) {
        return Ok(Spec.VmDetails(binary, r, false));
      }
      if host.running {
        RecordManaged(r);
        return Ok(Spec.VmDetails(binary, r, false));
      }
      var started := VmStart(adapter, r, host);
      if started.Err? {
        return Err(started.error);
      }
      launched := launched + [r.id];
      RecordManaged(r);
      answer := Ok(Spec.VmDetails(binary, r, true));
    }

    /** Tears down every managed VM. `removes` is the launcher's answer for each;
        `results` pairs each VM's resource id with it. */
    method Reconcile(removes: ManagedVm -> bool) returns (results: seq<(string, bool)>)
      requires forall id :: id in managed ==> managed[id].resourceId == id
      modifies this`managed
      ensures managed == map id | id in old(managed) && !removes(old(managed)[id]) :: old(managed)[id]
      ensures |results| == |old(managed)|
      ensures forall id :: id in old(managed) ==> (id, removes(old(managed)[id])) in results
    {
      var entries := managed;
      var todo := entries.Keys;
      results := [];
      while todo != {}
        invariant todo <= entries.Keys
        invariant entries == old(managed)
        invariant managed == map id | id in entries && (id in todo || !removes(entries[id])) :: entries[id]
        invariant |results| + |todo| == |entries|
        invariant forall id :: id in entries && id !in todo ==> (id, removes(entries[id])) in results
      {
        var id :| id in todo;
        var vm := entries[id];
        var outcome := removes(vm);
        if outcome {
          managed := managed - {vm.resourceId};
        }
        results := results + [(vm.resourceId, outcome)];
        todo := todo - {id};
      }
    }
  }

  lemma NewcomersGrow(rs: seq<Resource>, r: Resource, known: set<string>)
    ensures Spec.Newcomers(rs + [r], known)
         == if r.id in known then Spec.Newcomers(rs, known) else Spec.Newcomers(rs, known)[r.id := r]
  {
    assert (rs + [r])[..|rs|] == rs;
    assert Ids(rs + [r]) == Ids(rs) + {r.id} by {
      assert r in rs + [r];
      assert forall x :: x in rs ==> x in rs + [r];
    }
  }

  lemma NewcomersStep(rs: seq<Resource>, r: Resource, before: map<string, Resource>)
    ensures var sum := before + Spec.Newcomers(rs, before.Keys);
            before + Spec.Newcomers(rs + [r], before.Keys) == if r.id in before then sum else sum[r.id := r]
  {
    var newcomers := Spec.Newcomers(rs, before.Keys);
    NewcomersGrow(rs, r, before.Keys);
    assert before + newcomers[r.id := r] == (before + newcomers)[r.id := r];
  }

  /** What the two halves of a refresh make of a registry. */
  ghost predicate IsRefreshOf(before: map<string, Resource>, leased: set<string>, discovered: seq<Resource>,
                              after: map<string, Resource>, report: Spec.RefreshReport)
  {
    var gone := before.Keys - Ids(discovered);
    && after == (before + Spec.Newcomers(discovered, before.Keys)) - (gone - leased)
    && report == Spec.RefreshReport(Order.Sorted(Ids(discovered) - before.Keys), Order.Sorted(gone - leased),
                                    Order.Sorted(gone * leased))
  }

  lemma RefreshIsDone(m: FabricState, discovered: seq<Resource>, after: map<string, Resource>,
                      report: Spec.RefreshReport)
    requires IsRefreshOf(m.resources, m.leases.Keys, discovered, after, report)
    ensures (report, m.(resources := after)) == Spec.Refresh(m, discovered)
  {
    Spec.RefreshedBySteps(m, discovered);
  }

  class Fabric {
    var resources: map<string, Resource>
    var leases: map<string, ActiveLease>
    var adapters: map<string, AdapterKind>
    var attachments: map<string, string>
    var heartbeats: map<string, nat>
    var nextLeaseId: nat
    var now: nat
    const store: StoreAdapter
    const vmm: CloudHypervisorAdapter

    function State(): FabricState
      reads this, store, vmm
    {
      FabricState(resources, leases, adapters, attachments, heartbeats, nextLeaseId, vmm.managed, store.live, now)
    }

    constructor (binary: string)
      ensures State() == EMPTY && fresh(store) && fresh(vmm) && vmm.binary == binary
    {
      resources, leases, adapters, attachments, heartbeats := map[], map[], map[], map[], map[];
      nextLeaseId, now := 0, 0;
      store := new StoreAdapter();
      vmm := new CloudHypervisorAdapter(binary);
    }

    method Wait(ticks: nat)
      modifies this`now
      ensures State() == old(State()).(now := old(now) + ticks)
    {
      now := now + ticks;
    }

    method RegisterAdapter(name: string, kind: AdapterKind)
      modifies this`adapters
      ensures State() == old(State()).(adapters := old(adapters)[name := kind])
    {
      adapters := adapters[name := kind];
    }

    method Register(r: Resource)
      modifies this`resources
      ensures State() == Spec.Register(old(State()), r)
    {
      resources := resources[r.id := r];
    }

    method Unregister(id: string) returns (answer: Result<bool, FabricError>)
      modifies this`resources
      ensures (answer, State()) == Spec.Unregister(old(State()), id)
    {
      if id in leases {
        return Err(ResourceAlreadyLeased);
      }
      var existed := id in resources;
      resources := resources - {id};
      answer := Ok(existed);
    }

    /** Registers what was discovered and is not there yet. */
    method AddDiscovered(discovered: seq<Resource>, added: seq<string>)
      requires forall id :: id in added <==> id in Ids(discovered) - resources.Keys
      modifies this`resources
      ensures resources == old(resources) + Spec.Newcomers(discovered, old(resources).Keys)
    {
      ghost var before := resources;
      for i := 0 to |discovered|
        invariant resources == before + Spec.Newcomers(discovered[..i], before.Keys)
      {
        var r := discovered[i];
        assert r in discovered;
        assert r.id in added <==> r.id !in before;
        NewcomersStep(discovered[..i], r, before);
        assert discovered[..i] + [r] == discovered[..i + 1];
        if r.id in added {
          Register(r);
        }
      }
      assert discovered[..|discovered|] == discovered;
    }

    /** Unregisters each listed id, and says which were removed and which a lease kept. */
    method DropGone(gone: seq<string>) returns (removed: seq<string>, blocked: seq<string>)
      requires Order.Ascending(gone) && forall id :: id in gone ==> id in resources
      modifies this`resources
      ensures resources == old(resources) - ((set id | id in gone) - leases.Keys)
      ensures removed == Order.Sorted((set id | id in gone) - leases.Keys)
      ensures blocked == Order.Sorted((set id | id in gone) * leases.Keys)
    {
      ghost var before := resources;
      removed, blocked := [], [];
      for i := 0 to |gone|
        invariant leases == old(leases)
        invariant resources == before - ((set id | id in gone[..i]) - leases.Keys)
        invariant Order.Ascending(removed) && Order.Ascending(blocked)
        invariant forall id :: id in removed <==> id in gone[..i] && id !in leases
        invariant forall id :: id in blocked <==> id in gone[..i] && id in leases
      {
        var id := gone[i];
        assert gone[..i + 1] == gone[..i] + [id] && id in gone;
        assert forall x :: x in gone[..i] ==> Order.Less(x, id);
        Order.Irreflexive(id);
        var answer := Unregister(id);
        if answer.Err? {
          blocked := blocked + [id];
        } else if answer.value {
          removed := removed + [id];
        }
      }
      assert gone[..|gone|] == gone;
      Order.AscendingIsSorted(removed, (set id | id in gone) - leases.Keys);
      Order.AscendingIsSorted(blocked, (set id | id in gone) * leases.Keys);
    }

    /** Diffs the registry against a discovery: newcomers first, then what is gone. */
    method ApplyDiscovery(discovered: seq<Resource>) returns (report: Spec.RefreshReport)
      modifies this`resources
      ensures IsRefreshOf(old(resources), leases.Keys, discovered, resources, report)
    {
      var newIds := Ids(discovered);
      var currentIds := resources.Keys;
      var added := Order.Sorted(newIds - currentIds);
      var gone := Order.Sorted(currentIds - newIds);
      AddDiscovered(discovered, added);
      var removed, blocked := DropGone(gone);
      assert (set id | id in gone) == currentIds - newIds;
      report := Spec.RefreshReport(added, removed, blocked);
    }

    method RefreshLocal(discovered: seq<Resource>) returns (report: Spec.RefreshReport)
      modifies this`resources
      ensures (report, State()) == Spec.Refresh(old(State()), discovered)
    {
      ghost var m := State();
      report := ApplyDiscovery(discovered);
      RefreshIsDone(m, discovered, resources, report);
      assert State() == m.(resources := resources);
    }

    method Heartbeat(node: string)
      modifies this`heartbeats
      ensures State() == Spec.Heartbeat(old(State()), node)
    {
      heartbeats := heartbeats[node := now];
    }

    method EvictStaleNodes(olderThan: nat) returns (stale: set<string>)
      modifies this`heartbeats, this`resources
      ensures (stale, State()) == Spec.Evict(old(State()), olderThan)
    {
      ghost var before := resources;
      stale := Stale(heartbeats, now - olderThan);
      heartbeats := heartbeats - stale;
      if stale == {} {
        assert heartbeats == old(heartbeats);
        assert resources == resources - (Owned(resources, stale) - leases.Keys);
        return;
      }
      var owned := Owned(resources, stale);
      var todo := owned;
      while todo != {}
        invariant todo <= owned
        invariant unchanged(`leases) && heartbeats == old(heartbeats) - stale
        invariant resources == before - (owned - todo - leases.Keys)
      {
        var id :| id in todo;
        var _ := Unregister(id);
        todo := todo - {id};
      }
      assert owned - todo - leases.Keys == owned - leases.Keys;
    }

    method PruneLeases()
      modifies this`leases
      ensures State() == Spec.Prune(old(State()))
    {
      leases := map rid | rid in leases && leases[rid].expiresAt > now :: leases[rid];
    }

    method LeaseExclusive(rid: string, owner: string, ttl: nat) returns (answer: Result<Lease, FabricError>)
      modifies this`leases, this`nextLeaseId
      ensures (answer, State()) == Spec.LeaseExclusive(old(State()), rid, owner, ttl)
    {
      if rid !in resources {
        return Err(ResourceNotFound);
      }
      var r := resources[rid];
      if r.state != Available {
        return Err(ResourceUnavailable);
      }
      if !r.exclusive {
        return Err(ResourceUnavailable);
      }
      PruneLeases();
      if rid in leases {
        return Err(ResourceAlreadyLeased);
      }
      nextLeaseId := nextLeaseId + 1;
      var lease := Lease(nextLeaseId, rid, owner);
      leases := leases[rid := ActiveLease(lease, now + ttl)];
      answer := Ok(lease);
    }

    method FindAvailable(request: Spec.ResourceRequest) returns (found: set<Resource>)
      ensures found == Spec.FindAvailable(State(), request)
    {
      found := set id | id in resources && Spec.Satisfies(request, resources[id])
                        && (!resources[id].exclusive || resources[id].id !in leases) :: resources[id];
    }

    method Attach(adapter: string, lease: Lease, host: Host) returns (answer: Result<Attachment, FabricError>)
      modifies this`attachments, store, vmm
      ensures (answer, State()) == Spec.Attach(old(State()), adapter, lease, host, vmm.binary)
    {
      var rid := lease.resourceId;
      if rid !in resources {
        return Err(ResourceNotFound);
      }
      var r := resources[rid];
      if rid !in leases || leases[rid].lease.id != lease.id || leases[rid].expiresAt <= now {
        return Err(LeaseNotFound);
      }
      if adapter !in adapters {
        return Err(AdapterNotFound);
      }
      var outcome: Result<map<string, string>, FabricError>;
      match adapters[adapter] {
        case CloudHypervisor => outcome := vmm.Attach(adapter, r, host);
        case FabricStore => outcome := store.Attach(adapter, r, lease, host);
        case GpuLocal =>
          var checked := GpuPrecheck(adapter, r);
          outcome := if checked.Err? then Err(checked.error) else Ok(map[]);
        case Stateless =>
          outcome := if host.accepts then Ok(map[]) else Err(AdapterBackendUnavailable(adapter, "refused"));
      }
      if outcome.Err? {
        return Err(outcome.error);
      }
      attachments := attachments[rid := adapter];
      answer := Ok(Attachment(r.id, lease.id, adapter, outcome.value));
    }

    method Release(lease: Lease) returns (answer: Result<(), FabricError>)
      modifies this`attachments, this`leases, store
      ensures (answer, State()) == Spec.Release(old(State()), lease)
    {
      var rid := lease.resourceId;
      if rid !in leases || leases[rid].lease.id != lease.id {
        return Err(LeaseNotFound);
      }
      var attached := Get(attachments, rid);
      attachments := attachments - {rid};
      if attached.Some? && rid in resources && attached.value in adapters
         && adapters[attached.value] == FabricStore
      {
        var detached := store.Detach(resources[rid], lease);
        if detached.Err? {
          return Err(detached.error);
        }
      }
      leases := leases - {rid};
      answer := Ok(());
    }

    method RenewLease(lease: Lease, ttl: nat) returns (answer: Result<Lease, FabricError>)
      modifies this`leases
      ensures (answer, State()) == Spec.RenewLease(old(State()), lease, ttl)
    {
      PruneLeases();
      var rid := lease.resourceId;
      if rid in leases && leases[rid].lease.id == lease.id {
        leases := leases[rid := leases[rid].(expiresAt := now + ttl)];
        answer := Ok(leases[rid].lease);
      } else {
        answer := Err(LeaseNotFound);
      }
    }
  }
}
