/** The store adapter's map over whole-call runs: what is attached and not released. */
module StoreRuns {
  import opened FabricTypes
  import opened FabricState
  import opened FabricSpec
  import opened FabricRuns
  import Store

  /** Every adapter name stands for the store adapter. */
  ghost predicate StoreOnly(adapters: map<string, AdapterKind>) {
    forall name :: name in adapters ==> adapters[name] == FabricStore
  }

  ghost predicate OnlyStoreCalls(calls: seq<Call>) {
    forall call :: call in calls && call.AdapterCall? ==> call.kind == FabricStore
  }

  /** The lease table still has lease `id` for `rid`. */
  predicate Held(leases: map<string, ActiveLease>, rid: string, id: nat) {
    rid in leases && leases[rid].lease.id == id
  }

  ghost predicate SomeLive(live: map<nat, Store.StoreResolution>, rid: string) {
    exists id :: id in live && live[id].resourceId == rid
  }

  ghost predicate LiveOk(m: FabricState, l: Ledger) {
    && m.live.Keys == l.attached
    && (forall id :: id in m.live ==>
          && id in l.granted && l.granted[id] == m.live[id].resourceId
          && (Held(m.leases, m.live[id].resourceId, id) ==> m.live[id].resourceId in m.attachments))
  }

  ghost predicate AttachmentsOk(m: FabricState) {
    forall rid :: rid in m.attachments ==> m.attachments[rid] in m.adapters && SomeLive(m.live, rid)
  }

  ghost predicate Inv(m: FabricState, l: Ledger) {
    Agrees(m, l.granted) && StoreOnly(m.adapters) && LiveOk(m, l) && AttachmentsOk(m)
  }

  /** Calls that leave the adapters and their maps alone, and hold no new lease but a new id. */
  lemma QuietCall(m: FabricState, l: Ledger, call: Call, m': FabricState, l': Ledger)
    requires Inv(m, l) && m' == Apply(m, call) && l' == Note(m, l, call)
    requires !call.AttachCall? && !call.ReleaseCall? && (call.AdapterCall? ==> call.kind == FabricStore)
    ensures StoreOnly(m'.adapters) && LiveOk(m', l') && AttachmentsOk(m')
  {
    QuietEffect(m, l, call, m', l');
  }

  lemma QuietEffect(m: FabricState, l: Ledger, call: Call, m': FabricState, l': Ledger)
    requires GrantedOk(l.granted, m.nextLeaseId)
    requires m' == Apply(m, call) && l' == Note(m, l, call)
    requires !call.AttachCall? && !call.ReleaseCall?
    ensures m'.live == m.live && m'.attachments == m.attachments && l'.attached == l.attached
    ensures m'.adapters == if call.AdapterCall? then m.adapters[call.name := call.kind] else m.adapters
    ensures forall id :: id in l.granted ==> id in l'.granted && l'.granted[id] == l.granted[id]
    ensures NoNewHolds(m, m', l.granted)
  {
    if call.LeaseCall? {
      LeaseHolds(m, l.granted, call.resourceId, call.owner, call.ttl, m');
    } else if call.RenewCall? {
      RenewHolds(m, l.granted, call.lease, call.ttl, m');
    } else {
      RegistryEffect(m, l, call, m', l');
    }
  }

  lemma RegistryEffect(m: FabricState, l: Ledger, call: Call, m': FabricState, l': Ledger)
    requires m' == Apply(m, call) && l' == Note(m, l, call)
    requires !call.AttachCall? && !call.ReleaseCall? && !call.LeaseCall? && !call.RenewCall?
    ensures l' == l && m'.leases == m.leases && m'.live == m.live && m'.attachments == m.attachments
    ensures m'.adapters == if call.AdapterCall? then m.adapters[call.name := call.kind] else m.adapters
  {
  }

  /** No lease granted before comes back into the table. */
  ghost predicate NoNewHolds(m: FabricState, m': FabricState, granted: map<nat, string>) {
    forall rid, id :: id in granted && Held(m'.leases, rid, id) ==> Held(m.leases, rid, id)
  }

  lemma LeaseHolds(m: FabricState, granted: map<nat, string>, rid: string, owner: string, ttl: nat, m': FabricState)
    requires GrantedOk(granted, m.nextLeaseId) && m' == LeaseExclusive(m, rid, owner, ttl).1
    ensures NoNewHolds(m, m', granted)
  {
  }

  lemma RenewHolds(m: FabricState, granted: map<nat, string>, lease: Lease, ttl: nat, m': FabricState)
    requires m' == RenewLease(m, lease, ttl).1
    ensures NoNewHolds(m, m', granted)
  {
  }

  /** With the store as the only adapter an attach either writes both maps or neither. */
  lemma AttachWrites(m: FabricState, l: Ledger, adapter: string, lease: Lease, host: Host, m': FabricState, l': Ledger)
    requires StoreOnly(m.adapters) && RegistryOk(m.resources)
    requires m' == Attach(m, adapter, lease, host, "").1 && l' == Note(m, l, AttachCall(adapter, lease, host))
    ensures || (m'.live == m.live && m'.attachments == m.attachments && l' == l)
            || (&& lease.id in m'.live && m'.live == m.live[lease.id := m'.live[lease.id]]
                && m'.live[lease.id].resourceId == lease.resourceId
                && adapter in m.adapters && m'.attachments == m.attachments[lease.resourceId := adapter]
                && Matches(m, lease) && l' == l.(attached := l.attached + {lease.id}))
  {
    if Attach(m, adapter, lease, host, "").0.Ok? {
      var r := m.resources[lease.resourceId];
      StoreAttaches(m, adapter, r, lease, host, AdapterAttach(m, adapter, r, lease, host, "").1);
    }
  }

  lemma StoreAttaches(m: FabricState, adapter: string, r: Resource, lease: Lease, host: Host, m': FabricState)
    requires adapter in m.adapters && m.adapters[adapter] == FabricStore
    requires (var x := AdapterAttach(m, adapter, r, lease, host, ""); x.0.Ok? && x.1 == m')
    ensures lease.id in m'.live && m'.live[lease.id].resourceId == r.id
    ensures m' == m.(live := m.live[lease.id := m'.live[lease.id]])
  {
  }

  lemma AttachedOk(m: FabricState, l: Ledger, adapter: string, lease: Lease, m': FabricState, l': Ledger)
    requires Inv(m, l) && Matches(m, lease) && SameTables(m, m')
    requires lease.id in m'.live && m'.live == m.live[lease.id := m'.live[lease.id]]
    requires m'.live[lease.id].resourceId == lease.resourceId && adapter in m.adapters
    requires m'.attachments == m.attachments[lease.resourceId := adapter]
    requires l' == l.(attached := l.attached + {lease.id})
    ensures LiveOk(m', l') && AttachmentsOk(m')
  {
    assert EntryOk(lease.resourceId, m.leases[lease.resourceId].lease, m.resources.Keys, l.granted);
    forall r | r in m'.attachments ensures SomeLive(m'.live, r) {
      var id := lease.id;
      if r != lease.resourceId {
        id :| id in m.live && m.live[id].resourceId == r;
      }
      assert id in m'.live && m'.live[id].resourceId == r;
    }
  }

  lemma AttachEffect(m: FabricState, l: Ledger, call: Call, m': FabricState, l': Ledger)
    requires Inv(m, l) && m' == Apply(m, call) && l' == Note(m, l, call) && call.AttachCall?
    ensures StoreOnly(m'.adapters) && LiveOk(m', l') && AttachmentsOk(m')
  {
    AttachKeepsTables(m, call.adapter, call.lease, call.host, "", m');
    AttachWrites(m, l, call.adapter, call.lease, call.host, m', l');
    if m'.live != m.live || m'.attachments != m.attachments || l' != l {
      AttachedOk(m, l, call.adapter, call.lease, m', l');
    }
  }

  /** A release succeeds exactly for the lease in the table, and then takes its entry out of the map. */
  lemma ReleaseTakesItsOwn(m: FabricState, l: Ledger, lease: Lease)
    requires Inv(m, l)
    ensures var (answer, m') := Release(m, lease);
            && (answer.Ok? <==> Matches(m, lease))
            && (answer.Ok? ==> m'.live == m.live - {lease.id} && m'.leases == m.leases - {lease.resourceId}
                               && m'.attachments == m.attachments - {lease.resourceId})
            && (answer.Err? ==> m' == m)
  {
    var rid := lease.resourceId;
    if Matches(m, lease) {
      assert EntryOk(rid, m.leases[rid].lease, m.resources.Keys, l.granted);
      assert lease.id in m.live ==> Held(m.leases, m.live[lease.id].resourceId, lease.id);
      assert lease.id !in m.live ==> m.live - {lease.id} == m.live;
      assert rid !in m.attachments ==> m.attachments - {rid} == m.attachments;
    }
  }

  lemma ReleasedOk(m: FabricState, l: Ledger, lease: Lease, m': FabricState, l': Ledger)
    requires Inv(m, l) && Matches(m, lease) && m'.adapters == m.adapters
    requires m'.live == m.live - {lease.id} && m'.leases == m.leases - {lease.resourceId}
    requires m'.attachments == m.attachments - {lease.resourceId}
    requires l' == l.(attached := l.attached - {lease.id})
    ensures LiveOk(m', l') && AttachmentsOk(m')
  {
    assert EntryOk(lease.resourceId, m.leases[lease.resourceId].lease, m.resources.Keys, l.granted);
    forall r | r in m'.attachments ensures SomeLive(m'.live, r) {
      var id :| id in m.live && m.live[id].resourceId == r;
      assert id in m'.live && m'.live[id].resourceId == r;
    }
  }

  lemma ReleaseEffect(m: FabricState, l: Ledger, call: Call, m': FabricState, l': Ledger)
    requires Inv(m, l) && m' == Apply(m, call) && l' == Note(m, l, call) && call.ReleaseCall?
    ensures StoreOnly(m'.adapters) && LiveOk(m', l') && AttachmentsOk(m')
  {
    ReleaseTakesItsOwn(m, l, call.lease);
    if Matches(m, call.lease) {
      ReleasedOk(m, l, call.lease, m', l');
    }
  }

  lemma {:induction false} PlayKeepsInv(calls: seq<Call>)
    requires OnlyStoreCalls(calls)
    ensures Inv(Play(calls).state, Play(calls).ledger)
    decreases |calls|
  {
    LeasedMeansRegistered(calls);
    if calls != [] {
      var n := |calls| - 1;
      var before, after := Play(calls[..n]), Play(calls);
      assert calls[n] in calls && forall c :: c in calls[..n] ==> c in calls;
      PlayKeepsInv(calls[..n]);
      if calls[n].AttachCall? {
        AttachEffect(before.state, before.ledger, calls[n], after.state, after.ledger);
      } else if calls[n].ReleaseCall? {
        ReleaseEffect(before.state, before.ledger, calls[n], after.state, after.ledger);
      } else {
        QuietCall(before.state, before.ledger, calls[n], after.state, after.ledger);
      }
    }
  }

  /** While the store adapter is the only one, its map holds exactly the leases that
      were attached and never released, each under the resource its id was granted
      for; and a release never fails on a mismatch, only for a lease that is not in
      the table. This holds whether or not leases expire. */
  lemma LiveIsAttachedAndUnreleased(calls: seq<Call>, lease: Lease)
    requires OnlyStoreCalls(calls)
    ensures var m, l := Play(calls).state, Play(calls).ledger;
            && m.live.Keys == l.attached
            && (forall id :: id in m.live ==> id in l.granted && m.live[id].resourceId == l.granted[id])
            && (Release(m, lease).0.Ok? <==> Matches(m, lease))
  {
    PlayKeepsInv(calls);
    ReleaseTakesItsOwn(Play(calls).state, Play(calls).ledger, lease);
  }

  /** The lease ids of the table whose resource has an attachment on record. */
  function AttachedInTable(m: FabricState): set<nat> {
    set rid | rid in m.leases && rid in m.attachments :: m.leases[rid].lease.id
  }

  /** No attached lease was pruned: what is in the map is still in the table. */
  ghost predicate NonePruned(m: FabricState) {
    forall id :: id in m.live ==> Held(m.leases, m.live[id].resourceId, id)
  }

  /** The fabric's own records agree with the store's map exactly when no attached
      lease was pruned by expiry. */
  lemma RecordsAgreeIffNonePruned(calls: seq<Call>)
    requires OnlyStoreCalls(calls)
    ensures var m := Play(calls).state; m.live.Keys == AttachedInTable(m) <==> NonePruned(m)
  {
    PlayKeepsInv(calls);
    var m, l := Play(calls).state, Play(calls).ledger;
    if NonePruned(m) {
      forall id | id in AttachedInTable(m) ensures id in m.live {
        var rid :| rid in m.leases && rid in m.attachments && m.leases[rid].lease.id == id;
        var other :| other in m.live && m.live[other].resourceId == rid;
        assert Held(m.leases, rid, other);
      }
      forall id | id in m.live ensures id in AttachedInTable(m) {
        assert Held(m.leases, m.live[id].resourceId, id);
      }
    }
    if m.live.Keys == AttachedInTable(m) {
      forall id | id in m.live ensures Held(m.leases, m.live[id].resourceId, id) {
        assert id in AttachedInTable(m);
        var rid :| rid in m.leases && rid in m.attachments && m.leases[rid].lease.id == id;
        assert EntryOk(rid, m.leases[rid].lease, m.resources.Keys, l.granted);
      }
    }
  }

  // ------------------------------------------- any adapters beside the store

  ghost predicate LiveGranted(live: map<nat, Store.StoreResolution>, granted: map<nat, string>) {
    forall id :: id in live ==> id in granted && granted[id] == live[id].resourceId
  }

  lemma AttachLive(m: FabricState, adapter: string, lease: Lease, host: Host, m': FabricState)
    requires RegistryOk(m.resources) && m' == Attach(m, adapter, lease, host, "").1
    ensures m'.live == m.live
         || (&& Matches(m, lease) && lease.id in m'.live && m'.live == m.live[lease.id := m'.live[lease.id]]
             && m'.live[lease.id].resourceId == lease.resourceId)
  {
  }

  lemma {:induction false} PlayKeepsLiveGranted(calls: seq<Call>)
    ensures LiveGranted(Play(calls).state.live, Play(calls).ledger.granted)
    decreases |calls|
  {
    if calls != [] {
      var n := |calls| - 1;
      var before, after := Play(calls[..n]), Play(calls);
      PlayKeepsLiveGranted(calls[..n]);
      LeasedMeansRegistered(calls[..n]);
      LiveGrantedStep(before.state, before.ledger, calls[n], after.state, after.ledger);
    }
  }

  lemma LiveGrantedStep(m: FabricState, l: Ledger, call: Call, m': FabricState, l': Ledger)
    requires Agrees(m, l.granted) && LiveGranted(m.live, l.granted)
    requires m' == Apply(m, call) && l' == Note(m, l, call)
    ensures LiveGranted(m'.live, l'.granted)
  {
    if call.AttachCall? {
      AttachLive(m, call.adapter, call.lease, call.host, m');
      if m'.live != m.live {
        var rid := call.lease.resourceId;
        assert EntryOk(rid, m.leases[rid].lease, m.resources.Keys, l.granted);
      }
    } else if !call.ReleaseCall? {
      QuietEffect(m, l, call, m', l');
    }
  }

  /** Whatever adapters there are, over every run: a release succeeds exactly for the
      lease in the table, and it empties the store's entry of that lease exactly when
      the store was the last adapter to attach the resource. */
  lemma ReleaseDetachesIffStoreAttachedLast(calls: seq<Call>, lease: Lease)
    ensures var m := Play(calls).state;
            var (answer, m') := Release(m, lease);
            && (answer.Ok? <==> Matches(m, lease))
            && (answer.Ok? && lease.id in m.live ==>
                  (lease.id !in m'.live <==>
                     && lease.resourceId in m.attachments && m.attachments[lease.resourceId] in m.adapters
                     && m.adapters[m.attachments[lease.resourceId]] == FabricStore))
  {
    LeasedMeansRegistered(calls);
    PlayKeepsLiveGranted(calls);
    var m, rid := Play(calls).state, lease.resourceId;
    if Matches(m, lease) {
      assert EntryOk(rid, m.leases[rid].lease, m.resources.Keys, Play(calls).ledger.granted);
    }
  }
}
