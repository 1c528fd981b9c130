/** The two layers agree: a call whose sections run one after the other, with no
    other thread between them and the clock standing still, does what the
    whole-call specification says. */
module Solo {
  import opened FabricTypes
  import opened FabricState
  import opened Interleaving
  import Completion
  import Store
  import Spec = FabricSpec

  /** Runs a thread to the end of its call, alone. */
  ghost function Alone(th: Thread, m: FabricState, c: Choice): (Reply, FabricState)
    decreases Completion.Scans(th), Completion.Steps(th)
  {
    if th.Idle? then (th.reply, m)
    else
      var x := Exec(th.stage, m, c);
      Completion.SectionNearer(th.stage, m, c);
      Alone(x.next, x.shared, c)
  }

  /** The last section of a call. */
  lemma LastSection(st: Stage, m: FabricState, c: Choice)
    requires Exec(st, m, c).next.Idle?
    ensures Alone(Goto(st), m, c) == (Exec(st, m, c).next.reply, Exec(st, m, c).shared)
  {
  }

  /** One section of a call. */
  lemma OneSection(st: Stage, m: FabricState, c: Choice, x: Effect)
    requires x == Exec(st, m, c)
    ensures Alone(Goto(st), m, c) == Alone(x.next, x.shared, c)
  {
    Completion.SectionNearer(st, m, c);
  }

  /** One instant of the clock, and a prune that reads it for every entry. */
  predicate AtOnce(m: FabricState, c: Choice) {
    c.read == c.now == m.now && c.keep == Spec.Alive(m.leases, m.now)
  }

  function LeaseReply(answer: Result<Lease, FabricError>): Reply {
    match answer case Ok(lease) => Leased(lease) case Err(error) => Failed(error)
  }

  function RenewReply(answer: Result<Lease, FabricError>): Reply {
    match answer case Ok(lease) => Renewed(lease) case Err(error) => Failed(error)
  }

  function AttachReply(answer: Result<Attachment, FabricError>): Reply {
    match answer case Ok(attachment) => Attached(attachment.leaseId) case Err(error) => Failed(error)
  }

  function ReleaseReply(answer: Result<(), FabricError>): Reply {
    match answer case Ok(_) => Released case Err(error) => Failed(error)
  }

  function UnregisterReply(answer: Result<bool, FabricError>): Reply {
    match answer case Ok(existed) => Unregistered(existed) case Err(error) => Failed(error)
  }

  lemma LeaseAlone(m: FabricState, rid: string, owner: string, ttl: nat, c: Choice)
    requires AtOnce(m, c)
    ensures var (answer, m') := Spec.LeaseExclusive(m, rid, owner, ttl);
            Alone(Goto(LeaseLookup(rid, owner, ttl)), m, c) == (LeaseReply(answer), m')
  {
    if rid in m.resources && m.resources[rid].state == Available && m.resources[rid].exclusive {
      assert Alone(Goto(LeaseLookup(rid, owner, ttl)), m, c) == Alone(Goto(LeaseGrant(rid, owner, ttl)), m, c);
      LastSection(LeaseGrant(rid, owner, ttl), m, c);
    }
  }

  lemma RenewAlone(m: FabricState, lease: Lease, ttl: nat, c: Choice)
    requires AtOnce(m, c)
    ensures var (answer, m') := Spec.RenewLease(m, lease, ttl);
            Alone(Goto(Renew(lease, ttl)), m, c) == (RenewReply(answer), m')
  {
  }

  lemma UnregisterAlone(m: FabricState, id: string, c: Choice)
    ensures var (answer, m') := Spec.Unregister(m, id);
            Alone(Goto(UnregisterCheck(id, [])), m, c) == (UnregisterReply(answer), m')
  {
    if id !in m.leases {
      assert Alone(Goto(UnregisterCheck(id, [])), m, c) == Alone(Goto(UnregisterRemove(id, [])), m, c);
      LastSection(UnregisterRemove(id, []), m, c);
    }
  }

  lemma RegisterAlone(m: FabricState, r: Resource, c: Choice)
    ensures Alone(Goto(Register(r, [])), m, c) == (Finished, Spec.Register(m, r))
  {
    LastSection(Register(r, []), m, c);
  }

  lemma HeartbeatAlone(m: FabricState, node: string, c: Choice)
    requires c.read == m.now
    ensures Alone(Goto(Beat(node)), m, c) == (Finished, Spec.Heartbeat(m, node))
  {
    LastSection(Beat(node), m, c);
  }

  lemma RegisterAdapterAlone(m: FabricState, name: string, kind: AdapterKind, c: Choice)
    ensures Alone(Goto(RegisterAdapter(name, kind)), m, c) == (Finished, m.(adapters := m.adapters[name := kind]))
  {
    LastSection(RegisterAdapter(name, kind), m, c);
  }

  lemma RemovalSections(m: FabricState, vm: string, rest: seq<string>, c: Choice, m1: FabricState)
    requires m1 == m.(managed := m.managed - {vm})
    ensures Alone(Goto(ReconcileRemove(vm, rest)), m, c)
         == Alone(ReconcileNext(rest), if c.host.removed then m1 else m, c)
  {
    if c.host.removed {
      OneSection(ReconcileRemove(vm, rest), m, c, Effect(Goto(ReconcileForget(vm, rest)), m, Removed(vm)));
      OneSection(ReconcileForget(vm, rest), m, c, Effect(ReconcileNext(rest), m1, Forgot(vm)));
    } else {
      OneSection(ReconcileRemove(vm, rest), m, c, Effect(ReconcileNext(rest), m, Quiet));
    }
  }

  lemma {:induction false} RemovalsAlone(m: FabricState, vms: seq<string>, c: Choice)
    ensures Alone(ReconcileNext(vms), m, c)
         == (Finished, m.(managed := m.managed - if c.host.removed then set vm | vm in vms else {}))
    decreases |vms|
  {
    if vms == [] {
      assert m.managed - {} == m.managed && (set vm | vm in vms) == {};
    } else {
      var m1, others := m.(managed := m.managed - {vms[0]}), set v | v in vms[1..];
      assert (set v | v in vms) == {vms[0]} + others;
      RemovalSections(m, vms[0], vms[1..], c, m1);
      RemovalsAlone(if c.host.removed then m1 else m, vms[1..], c);
      assert m1.managed - others == m.managed - ({vms[0]} + others);
    }
  }

  /** A reconcile on its own, with a launcher that answers every removal alike, forgets
      every VM or none. */
  lemma ReconcileAlone(m: FabricState, c: Choice)
    requires Enumerates(c.order, m.managed.Keys)
    ensures Alone(Goto(Reconcile), m, c)
         == (Finished, m.(managed := if c.host.removed then map[] else m.managed))
  {
    OneSection(Reconcile, m, c, Effect(ReconcileNext(c.order), m, Quiet));
    RemovalsAlone(m, c.order, c);
    assert (set vm | vm in c.order) == m.managed.Keys;
    assert m.managed - m.managed.Keys == map[] && m.managed - {} == m.managed;
  }

  lemma CommitAlone(m: FabricState, lease: Lease, c: Choice)
    requires Matches(m, lease)
    ensures Alone(Goto(ReleaseCommit(lease)), m, c) == (Released, m.(leases := m.leases - {lease.resourceId}))
  {
  }

  lemma DetachAlone(m: FabricState, lease: Lease, r: Resource, c: Choice)
    requires Matches(m, lease)
    ensures var (detached, live) := Spec.StoreDetach(m.live, r, lease);
            Alone(Goto(ReleaseDetach(lease, r)), m, c)
            == if detached.Ok? then (Released, m.(live := live, leases := m.leases - {lease.resourceId}))
               else (Failed(LeaseNotFound), m)
  {
    var x := DetachSection(lease, r, m);
    assert Alone(Goto(ReleaseDetach(lease, r)), m, c) == Alone(x.next, x.shared, c);
    if x.next.At? {
      CommitAlone(x.shared, lease, c);
    }
  }

  /** The rest of a release, once the attachment record is taken. */
  lemma LookupAlone(m: FabricState, lease: Lease, adapter: string, c: Choice)
    requires Matches(m, lease)
    ensures var rid := lease.resourceId;
            Alone(Goto(ReleaseLookup(lease, adapter)), m, c)
            == if rid in m.resources && adapter in m.adapters && m.adapters[adapter] == FabricStore then
                 var (detached, live) := Spec.StoreDetach(m.live, m.resources[rid], lease);
                 if detached.Ok? then (Released, m.(live := live, leases := m.leases - {rid}))
                 else (Failed(LeaseNotFound), m)
               else (Released, m.(leases := m.leases - {rid}))
  {
    CommitAlone(m, lease, c);
    if lease.resourceId in m.resources {
      var r := m.resources[lease.resourceId];
      OneSection(ReleaseLookup(lease, adapter), m, c, Effect(Goto(ReleaseAdapter(lease, adapter, r)), m, Quiet));
      if adapter in m.adapters && m.adapters[adapter] == FabricStore {
        OneSection(ReleaseAdapter(lease, adapter, r), m, c, Effect(Goto(ReleaseDetach(lease, r)), m, Quiet));
        DetachAlone(m, lease, r, c);
      }
    }
  }

  lemma ReleaseAlone(m: FabricState, lease: Lease, c: Choice)
    ensures var (answer, m') := Spec.Release(m, lease);
            Alone(Goto(ReleaseCheck(lease)), m, c) == (ReleaseReply(answer), m')
  {
    if Matches(m, lease) {
      var x := Exec(ReleaseTake(lease), m, c);
      OneSection(ReleaseCheck(lease), m, c, Effect(Goto(ReleaseTake(lease)), m, Quiet));
      OneSection(ReleaseTake(lease), m, c, x);
      assert x.shared == m.(attachments := m.attachments - {lease.resourceId});
      if lease.resourceId !in m.attachments {
        CommitAlone(x.shared, lease, c);
      } else {
        LookupAlone(x.shared, lease, m.attachments[lease.resourceId], c);
      }
    }
  }

  // ---------------------------------------------------------------- attach

  /** The state an attach leaves once its adapter is done. */
  function Recorded(m: FabricState, adapter: string, lease: Lease): FabricState {
    m.(attachments := m.attachments[lease.resourceId := adapter])
  }

  lemma RecordAlone(m: FabricState, adapter: string, lease: Lease, c: Choice)
    ensures Alone(Goto(AttachRecord(adapter, lease)), m, c) == (Attached(lease.id), Recorded(m, adapter, lease))
  {
  }

  lemma VmRecordAlone(m: FabricState, adapter: string, lease: Lease, r: Resource, c: Choice)
    ensures Alone(Goto(VmRecord(adapter, lease, r)), m, c)
            == (Attached(lease.id), Recorded(m.(managed := m.managed[r.id := VmRecordOf(r)]), adapter, lease))
  {
    RecordAlone(m.(managed := m.managed[r.id := VmRecordOf(r)]), adapter, lease, c);
  }

  lemma VmLaunchAlone(m: FabricState, adapter: string, lease: Lease, r: Resource, c: Choice)
    ensures var started := VmStart(adapter, r, c.host);
            Alone(Goto(VmLaunch(adapter, lease, r)), m, c)
            == if started.Err? then (Failed(started.error), m)
               else (Attached(lease.id), Recorded(m.(managed := m.managed[r.id := VmRecordOf(r)]), adapter, lease))
  {
    VmRecordAlone(m, adapter, lease, r, c);
    OneSection(VmLaunch(adapter, lease, r), m, c, Exec(VmLaunch(adapter, lease, r), m, c));
  }

  lemma VmProbeAlone(m: FabricState, adapter: string, lease: Lease, r: Resource, c: Choice)
    ensures Alone(Goto(VmProbe(adapter, lease, r)), m, c)
            == if c.host.running
               then (Attached(lease.id), Recorded(m.(managed := m.managed[r.id := VmRecordOf(r)]), adapter, lease))
               else Alone(Goto(VmLaunch(adapter, lease, r)), m, c)
  {
    VmRecordAlone(m, adapter, lease, r, c);
    OneSection(VmProbe(adapter, lease, r), m, c, Exec(VmProbe(adapter, lease, r), m, c));
  }

  lemma VmCheckAlone(m: FabricState, adapter: string, lease: Lease, r: Resource, c: Choice)
    requires VmPrecheck(adapter, r, c.host).Ok?
    ensures var (launched, managed) := Spec.VmAttach(m.managed, adapter, r, c.host);
            Alone(Goto(VmCheck(adapter, lease, r)), m, c)
            == if launched.Err? then (Failed(launched.error), m)
               else (Attached(lease.id), Recorded(m.(managed := managed), adapter, lease))
  {
    if IsManaged(m.managed, r) {
      OneSection(VmCheck(adapter, lease, r), m, c, Effect(Goto(AttachRecord(adapter, lease)), m, Quiet));
      RecordAlone(m, adapter, lease, c);
    } else {
      OneSection(VmCheck(adapter, lease, r), m, c, Effect(Goto(VmProbe(adapter, lease, r)), m, Quiet));
      VmProbeAlone(m, adapter, lease, r, c);
      VmLaunchAlone(m, adapter, lease, r, c);
    }
  }

  lemma StoreInsertAlone(m: FabricState, adapter: string, lease: Lease, store: Store.StoreResolution, c: Choice)
    ensures Alone(Goto(StoreInsert(adapter, lease, store)), m, c)
            == (Attached(lease.id), Recorded(m.(live := m.live[lease.id := store]), adapter, lease))
  {
    RecordAlone(m.(live := m.live[lease.id := store]), adapter, lease, c);
  }

  lemma GpuAlone(m: FabricState, adapter: string, lease: Lease, second: bool, c: Choice)
    ensures Alone(Goto(GpuReserve(adapter, lease, second)), m, c) == (Attached(lease.id), Recorded(m, adapter, lease))
    decreases !second
  {
    RecordAlone(m, adapter, lease, c);
    if !second && !c.host.reserved {
      GpuAlone(m, adapter, lease, true, c);
    }
  }

  lemma AdapterAlone(m: FabricState, adapter: string, lease: Lease, r: Resource, c: Choice)
    requires adapter in m.adapters
    ensures var (answer, m') := Spec.AdapterAttach(m, adapter, r, lease, c.host, "");
            Alone(Goto(AttachAdapter(adapter, lease, r)), m, c)
            == if answer.Err? then (Failed(answer.error), m')
               else (Attached(lease.id), Recorded(m', adapter, lease))
  {
    match m.adapters[adapter]
    case CloudHypervisor => if VmPrecheck(adapter, r, c.host).Ok? { VmCheckAlone(m, adapter, lease, r, c); }
    case FabricStore =>
      var found := StorePrecheck(adapter, r, c.host);
      if found.Ok? { StoreInsertAlone(m, adapter, lease, found.value, c); }
    case GpuLocal => GpuAlone(m, adapter, lease, false, c);
    case Stateless => RecordAlone(m, adapter, lease, c);
  }

  lemma AttachAlone(m: FabricState, adapter: string, lease: Lease, c: Choice)
    requires AtOnce(m, c)
    ensures var (answer, m') := Spec.Attach(m, adapter, lease, c.host, "");
            Alone(Goto(AttachLookup(adapter, lease)), m, c) == (AttachReply(answer), m')
  {
    var rid := lease.resourceId;
    if rid in m.resources {
      var r := m.resources[rid];
      assert Alone(Goto(AttachLookup(adapter, lease)), m, c) == Alone(Goto(AttachCheck(adapter, lease, r)), m, c);
      if Matches(m, lease) && m.leases[rid].expiresAt > m.now {
        assert Alone(Goto(AttachCheck(adapter, lease, r)), m, c) == Alone(Goto(AttachAdapter(adapter, lease, r)), m, c);
        if adapter in m.adapters {
          AdapterAlone(m, adapter, lease, r, c);
        } else {
          LastSection(AttachAdapter(adapter, lease, r), m, c);
        }
      } else {
        LastSection(AttachCheck(adapter, lease, r), m, c);
      }
    }
  }

  // ---------------------------------------------------- eviction and refresh

  /** What a work list does to the registry, one call after the other. */
  function Played(todo: seq<RegistryOp>, m: FabricState): FabricState {
    if todo == [] then m
    else
      match todo[0]
      case Add(r) => Played(todo[1..], Spec.Register(m, r))
      case Drop(id) => Played(todo[1..], Spec.Unregister(m, id).1)
  }

  lemma {:induction false} TodoAlone(todo: seq<RegistryOp>, last: Reply, m: FabricState, c: Choice)
    ensures Alone(Continue(todo, last), m, c).1 == Played(todo, m)
    decreases |todo|
  {
    if todo != [] {
      match todo[0]
      case Add(r) => TodoAlone(todo[1..], Finished, Spec.Register(m, r), c);
      case Drop(id) =>
        if id in m.leases {
          TodoAlone(todo[1..], Failed(ResourceAlreadyLeased), m, c);
        } else {
          OneSection(UnregisterCheck(id, todo[1..]), m, c, Effect(Goto(UnregisterRemove(id, todo[1..])), m, Quiet));
          TodoAlone(todo[1..], Unregistered(id in m.resources), Spec.Unregister(m, id).1, c);
        }
    }
  }

  lemma DropFirst(m: FabricState, id: string, others: set<string>)
    ensures var m' := Spec.Unregister(m, id).1;
            && m' == m.(resources := m'.resources)
            && m'.resources - (others - m.leases.Keys) == m.resources - (({id} + others) - m.leases.Keys)
  {
    if id in m.leases {
      assert others - m.leases.Keys == ({id} + others) - m.leases.Keys;
    }
  }

  lemma {:induction false} DropsPlayed(ids: seq<string>, m: FabricState)
    ensures Played(Drops(ids), m) == m.(resources := m.resources - ((set id | id in ids) - m.leases.Keys))
  {
    if ids == [] {
      assert m.resources - ((set id | id in ids) - m.leases.Keys) == m.resources;
    } else {
      var others := set id | id in ids[1..];
      assert Drops(ids)[0] == Drop(ids[0]) && Drops(ids)[1..] == Drops(ids[1..]);
      DropsPlayed(ids[1..], Spec.Unregister(m, ids[0]).1);
      assert (set id | id in ids) == {ids[0]} + others;
      DropFirst(m, ids[0], others);
    }
  }

  lemma {:induction false} LastWithFromFront(rs: seq<Resource>, id: string)
    requires rs != [] && id in Ids(rs)
    ensures Spec.LastWith(rs, id) == if id in Ids(rs[1..]) then Spec.LastWith(rs[1..], id) else rs[0]
    decreases |rs|
  {
    var n := |rs| - 1;
    assert forall r :: r in rs <==> r == rs[0] || r in rs[1..];
    if rs[n].id == id {
      assert n > 0 ==> rs[1..][n - 1] == rs[n] && rs[n] in rs[1..];
    } else {
      assert forall r :: r in rs <==> r in rs[..n] || r == rs[n];
      assert n > 0;
      LastWithFromFront(rs[..n], id);
      assert rs[..n][1..] == rs[1..][..n - 1] && rs[1..][n - 1] == rs[n];
      assert forall r :: r in rs[1..] <==> r in rs[1..][..n - 1] || r == rs[n];
    }
  }

  lemma NewcomersFromFront(rs: seq<Resource>, known: set<string>)
    requires rs != []
    ensures Spec.Newcomers(rs, known)
            == if rs[0].id in known then Spec.Newcomers(rs[1..], known)
               else map[rs[0].id := rs[0]] + Spec.Newcomers(rs[1..], known)
  {
    var whole, tail := Spec.Newcomers(rs, known), Spec.Newcomers(rs[1..], known);
    IdsFromFront(rs);
    forall id | id in Ids(rs)
      ensures Spec.LastWith(rs, id) == if id in Ids(rs[1..]) then Spec.LastWith(rs[1..], id) else rs[0]
    {
      LastWithFromFront(rs, id);
    }
    FrontAndTail(whole, tail, rs[0], known);
  }

  lemma FrontAndTail(whole: map<string, Resource>, tail: map<string, Resource>, r: Resource, known: set<string>)
    requires whole.Keys == ({r.id} + tail.Keys) - known && tail.Keys !! known
    requires forall id :: id in whole ==> whole[id] == if id in tail then tail[id] else r
    ensures whole == if r.id in known then tail else map[r.id := r] + tail
  {
  }

  lemma IdsFromFront(rs: seq<Resource>)
    requires rs != []
    ensures Ids(rs) == {rs[0].id} + Ids(rs[1..])
  {
    assert forall r :: r in rs <==> r == rs[0] || r in rs[1..];
  }

  lemma {:induction false} AddsPlayed(rs: seq<Resource>, known: set<string>, after: seq<RegistryOp>, m: FabricState)
    ensures Played(Adds(rs, known) + after, m)
            == Played(after, m.(resources := m.resources + Spec.Newcomers(rs, known)))
  {
    if rs == [] {
      assert Adds(rs, known) + after == after;
      assert m.resources + Spec.Newcomers(rs, known) == m.resources;
    } else {
      NewcomersFromFront(rs, known);
      var r, tail := rs[0], Adds(rs[1..], known) + after;
      if r.id in known {
        assert Adds(rs, known) + after == tail;
        AddsPlayed(rs[1..], known, after, m);
      } else {
        assert Adds(rs, known) + after == [Add(r)] + tail;
        assert ([Add(r)] + tail)[1..] == tail;
        AddsPlayed(rs[1..], known, after, Spec.Register(m, r));
        AddFirst(m.resources, r, Spec.Newcomers(rs[1..], known));
      }
    }
  }

  lemma AddFirst(resources: map<string, Resource>, r: Resource, others: map<string, Resource>)
    ensures resources[r.id := r] + others == resources + (map[r.id := r] + others)
  {
  }

  lemma RefreshPlayed(m: FabricState, discovered: seq<Resource>, order: seq<string>)
    requires Enumerates(order, m.resources.Keys - Ids(discovered))
    ensures Played(Adds(discovered, m.resources.Keys) + Drops(order), m) == Spec.Refresh(m, discovered).1
  {
    var known := m.resources.Keys;
    var grown := m.(resources := m.resources + Spec.Newcomers(discovered, known));
    AddsPlayed(discovered, known, Drops(order), m);
    DropsPlayed(order, grown);
    assert (set id | id in order) == known - Ids(discovered);
    Spec.RefreshedBySteps(m, discovered);
  }

  lemma RefreshSection(m: FabricState, discovered: seq<Resource>, c: Choice)
    ensures Exec(RefreshScan(discovered), m, c)
         == Effect(Continue(Adds(discovered, m.resources.Keys) + Drops(c.order), Finished), m, Quiet)
  {
  }

  lemma RefreshTodo(m: FabricState, discovered: seq<Resource>, c: Choice, todo: seq<RegistryOp>)
    requires Exec(RefreshScan(discovered), m, c) == Effect(Continue(todo, Finished), m, Quiet)
    ensures Alone(Goto(RefreshScan(discovered)), m, c).1 == Played(todo, m)
  {
    OneSection(RefreshScan(discovered), m, c, Effect(Continue(todo, Finished), m, Quiet));
    TodoAlone(todo, Finished, m, c);
  }

  lemma RefreshAlone(m: FabricState, discovered: seq<Resource>, c: Choice)
    requires Enumerates(c.order, m.resources.Keys - Ids(discovered))
    ensures Alone(Goto(RefreshScan(discovered)), m, c).1 == Spec.Refresh(m, discovered).1
  {
    RefreshSection(m, discovered, c);
    RefreshTodo(m, discovered, c, Adds(discovered, m.resources.Keys) + Drops(c.order));
    RefreshPlayed(m, discovered, c.order);
  }

  lemma EvictPlayed(m: FabricState, olderThan: nat, order: seq<string>, stale: set<string>, m1: FabricState)
    requires stale == Stale(m.heartbeats, m.now - olderThan) && Enumerates(order, Owned(m.resources, stale))
    requires m1 == m.(heartbeats := m.heartbeats - stale)
    ensures Played(Drops(order), m1) == Spec.Evict(m, olderThan).1
  {
    DropsPlayed(order, m1);
    assert (set id | id in order) == Owned(m.resources, stale);
  }

  lemma NothingStale(m: FabricState, olderThan: nat)
    requires Stale(m.heartbeats, m.now - olderThan) == {}
    ensures Spec.Evict(m, olderThan).1 == m
  {
    assert Owned(m.resources, {}) == {};
    assert m.heartbeats - {} == m.heartbeats;
    assert m.resources - (Owned(m.resources, {}) - m.leases.Keys) == m.resources;
  }

  lemma BeatsSection(m: FabricState, cutoff: int, c: Choice, stale: set<string>, m1: FabricState)
    requires stale == Stale(m.heartbeats, cutoff) != {} && m1 == m.(heartbeats := m.heartbeats - stale)
    ensures Exec(EvictBeats(cutoff), m, c) == Effect(Goto(EvictScan(stale)), m1, Quiet)
  {
  }

  lemma ScanSection(m: FabricState, stale: set<string>, c: Choice)
    ensures Exec(EvictScan(stale), m, c) == Effect(Continue(Drops(c.order), Finished), m, Quiet)
  {
  }

  lemma EvictThenScan(m: FabricState, cutoff: int, c: Choice, stale: set<string>, m1: FabricState)
    requires stale == Stale(m.heartbeats, cutoff) != {} && m1 == m.(heartbeats := m.heartbeats - stale)
    ensures Alone(Goto(EvictBeats(cutoff)), m, c).1 == Played(Drops(c.order), m1)
  {
    BeatsSection(m, cutoff, c, stale, m1);
    OneSection(EvictBeats(cutoff), m, c, Effect(Goto(EvictScan(stale)), m1, Quiet));
    ScanSection(m1, stale, c);
    OneSection(EvictScan(stale), m1, c, Effect(Continue(Drops(c.order), Finished), m1, Quiet));
    TodoAlone(Drops(c.order), Finished, m1, c);
  }

  lemma EvictNothing(m: FabricState, cutoff: int, c: Choice)
    requires Stale(m.heartbeats, cutoff) == {}
    ensures Alone(Goto(EvictBeats(cutoff)), m, c).1 == m
  {
    LastSection(EvictBeats(cutoff), m, c);
  }

  lemma EvictSomething(m: FabricState, olderThan: nat, c: Choice, cutoff: int, stale: set<string>)
    requires cutoff == m.now - olderThan && stale == Stale(m.heartbeats, cutoff) != {}
    requires Enumerates(c.order, Owned(m.resources, stale))
    ensures Alone(Goto(EvictBeats(cutoff)), m, c).1 == Spec.Evict(m, olderThan).1
  {
    var m1 := m.(heartbeats := m.heartbeats - stale);
    EvictThenScan(m, cutoff, c, stale, m1);
    EvictPlayed(m, olderThan, c.order, stale, m1);
  }

  lemma EvictAlone(m: FabricState, olderThan: nat, c: Choice)
    requires Enumerates(c.order, Owned(m.resources, Stale(m.heartbeats, m.now - olderThan)))
    ensures Alone(Goto(EvictBeats(m.now - olderThan)), m, c).1 == Spec.Evict(m, olderThan).1
  {
    var cutoff := m.now - olderThan;
    var stale := Stale(m.heartbeats, cutoff);
    if stale == {} {
      NothingStale(m, olderThan);
      EvictNothing(m, cutoff, c);
    } else {
      EvictSomething(m, olderThan, c, cutoff, stale);
    }
  }
}
