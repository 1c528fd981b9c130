/** Exclusion and the life of a lease id, in every interleaving. */
module LeaseSafety {
  import opened FabricTypes
  import opened FabricState
  import opened Interleaving

  type Table = map<string, ActiveLease>
  type Grants = map<nat, Grant>

  /** The lease no longer stands at instant `at`: released, or past its latest deadline. */
  predicate Ended(x: Grant, at: nat) {
    (x.releasedAt.Some? && x.releasedAt.value <= at) || x.deadline <= at
  }

  /** The lease stands at instant `at`. */
  predicate LiveAt(x: Grant, at: nat) {
    x.grantedAt <= at < x.deadline && (x.releasedAt.Some? ==> at < x.releasedAt.value)
  }

  /** The table holds lease `id` for resource `rid`. */
  predicate Holds(table: Table, rid: string, id: nat) {
    rid in table && table[rid].lease.id == id
  }

  ghost predicate Newest(g: Grants, rid: string, id: nat) {
    forall b :: b in g && g[b].resourceId == rid ==> b <= id
  }

  /** The entry is the newest grant of its resource, unreleased, and carries the
      deadline the history knows. */
  ghost predicate EntryOk(rid: string, e: ActiveLease, g: Grants) {
    && e.lease.resourceId == rid
    && e.lease.id in g
    && g[e.lease.id].resourceId == rid
    && g[e.lease.id].deadline == e.expiresAt
    && g[e.lease.id].releasedAt.None?
    && Newest(g, rid, e.lease.id)
  }

  ghost predicate TableOk(table: Table, g: Grants) {
    forall rid {:trigger EntryOk(rid, table[rid], g)} :: rid in table ==> EntryOk(rid, table[rid], g)
  }

  /** A grant that is not in the table has ended. */
  ghost predicate GrantOk(id: nat, x: Grant, table: Table, next: nat, now: nat) {
    && 1 <= id <= next
    && x.grantedAt <= now
    && (x.releasedAt.Some? ==> x.releasedAt.value <= now)
    && (Holds(table, x.resourceId, id) || Ended(x, now))
  }

  ghost predicate GrantsOk(table: Table, next: nat, now: nat, g: Grants) {
    forall id {:trigger GrantOk(id, g[id], table, next, now)} :: id in g ==> GrantOk(id, g[id], table, next, now)
  }

  /** An earlier grant of the same resource had ended when a later one was made. */
  ghost predicate Exclusive(g: Grants) {
    forall a, b {:trigger Ended(g[a], g[b].grantedAt)} ::
      a in g && b in g && a < b && g[a].resourceId == g[b].resourceId ==> Ended(g[a], g[b].grantedAt)
  }

  ghost predicate LeasesOk(table: Table, next: nat, now: nat, g: Grants) {
    TableOk(table, g) && GrantsOk(table, next, now, g) && Exclusive(g)
  }

  ghost predicate Inv(s: System) {
    LeasesOk(s.shared.leases, s.shared.nextLeaseId, s.shared.now, s.history.grants)
  }

  // ----------------------------------------- what each change of the table keeps

  lemma TickKeeps(table: Table, next: nat, now: nat, g: Grants, later: nat)
    requires LeasesOk(table, next, now, g) && now <= later
    ensures LeasesOk(table, next, later, g)
  {
    forall id | id in g ensures GrantOk(id, g[id], table, next, later) {
      assert GrantOk(id, g[id], table, next, now);
    }
  }

  lemma PruneKeeps(table: Table, next: nat, now: nat, g: Grants, keep: set<string>, read: nat)
    requires LeasesOk(table, next, now, g) && now <= read
    requires forall rid :: rid in table && rid !in keep ==> table[rid].expiresAt <= read
    ensures LeasesOk(Pruned(table, keep), next, read, g)
  {
    forall id | id in g ensures GrantOk(id, g[id], Pruned(table, keep), next, read) {
      var rid := g[id].resourceId;
      assert GrantOk(id, g[id], table, next, now);
      if Holds(table, rid, id) {
        assert EntryOk(rid, table[rid], g);
      }
    }
  }

  lemma GrantKeeps(table: Table, next: nat, now: nat, g: Grants, lease: Lease, ttl: nat)
    requires LeasesOk(table, next, now, g)
    requires lease.resourceId !in table && lease.id == next + 1
    ensures LeasesOk(table[lease.resourceId := ActiveLease(lease, now + ttl)], lease.id, now,
                     g[lease.id := Grant(lease.resourceId, now, now + ttl, None)])
  {
    var table' := table[lease.resourceId := ActiveLease(lease, now + ttl)];
    var g' := g[lease.id := Grant(lease.resourceId, now, now + ttl, None)];
    forall id | id in g' ensures GrantOk(id, g'[id], table', lease.id, now) {
      if id != lease.id {
        assert GrantOk(id, g[id], table, next, now);
      }
    }
    forall rid | rid in table' ensures EntryOk(rid, table'[rid], g') {
      if rid != lease.resourceId {
        assert EntryOk(rid, table[rid], g);
        assert GrantOk(table[rid].lease.id, g[table[rid].lease.id], table, next, now);
      } else {
        forall b | b in g' && g'[b].resourceId == rid ensures b <= lease.id {
          if b != lease.id { assert GrantOk(b, g[b], table, next, now); }
        }
      }
    }
    forall a, b | a in g' && b in g' && a < b && g'[a].resourceId == g'[b].resourceId
      ensures Ended(g'[a], g'[b].grantedAt)
    {
      if b != lease.id {
        assert GrantOk(b, g[b], table, next, now);
        assert Ended(g[a], g[b].grantedAt);
      } else {
        assert GrantOk(a, g[a], table, next, now);
      }
    }
  }

  /** The entry of a lease that is still held changes deadline, or leaves released. */
  lemma ChangeKeeps(table: Table, next: nat, now: nat, g: Grants, rid: string, x: Grant, table': Table)
    requires LeasesOk(table, next, now, g) && rid in table
    requires var id := table[rid].lease.id;
             && id in g && x.resourceId == rid && x.grantedAt == g[id].grantedAt
             && (|| (x.releasedAt.None? && table' == table[rid := table[rid].(expiresAt := x.deadline)])
                 || (x.releasedAt == Some(now) && table' == table - {rid}))
    ensures LeasesOk(table', next, now, g[table[rid].lease.id := x])
  {
    var id := table[rid].lease.id;
    var g' := g[id := x];
    assert EntryOk(rid, table[rid], g);
    forall b | b in g' ensures GrantOk(b, g'[b], table', next, now) {
      assert GrantOk(b, g[b], table, next, now);
    }
    forall r | r in table' ensures EntryOk(r, table'[r], g') {
      assert EntryOk(r, table[r], g);
      assert Newest(g, r, table[r].lease.id);
      assert forall b :: b in g' <==> b in g;
    }
    forall a, b | a in g' && b in g' && a < b && g'[a].resourceId == g'[b].resourceId
      ensures Ended(g'[a], g'[b].grantedAt)
    {
      assert a != id;
      assert Ended(g[a], g[b].grantedAt);
    }
  }

  // --------------------------------------------------- each section keeps it

  lemma AddKeeps(table: Table, next: nat, now: nat, g: Grants, lease: Lease, ttl: nat, later: nat)
    requires LeasesOk(table, next, now, g) && now <= later
    requires lease.resourceId !in table && lease.id == next + 1
    ensures LeasesOk(table[lease.resourceId := ActiveLease(lease, now + ttl)], lease.id, later,
                     g[lease.id := Grant(lease.resourceId, now, now + ttl, None)])
  {
    GrantKeeps(table, next, now, g, lease, ttl);
    TickKeeps(table[lease.resourceId := ActiveLease(lease, now + ttl)], lease.id, now,
              g[lease.id := Grant(lease.resourceId, now, now + ttl, None)], later);
  }

  lemma GrantSectionKeeps(m: FabricState, g: Grants, rid: string, owner: string, ttl: nat, c: Choice, x: Effect)
    requires LeasesOk(m.leases, m.nextLeaseId, m.now, g)
    requires m.now <= c.read <= c.now && PruneOk(m.leases, c.keep, m.now, c.read)
    requires x == GrantSection(rid, owner, ttl, m, c)
    ensures LeasesOk(x.shared.leases, x.shared.nextLeaseId, c.now, RecordGrant(g, x.note))
  {
    var pruned := Pruned(m.leases, c.keep);
    PruneKeeps(m.leases, m.nextLeaseId, m.now, g, c.keep, c.read);
    if rid in pruned {
      TickKeeps(pruned, m.nextLeaseId, c.read, g, c.now);
    } else {
      AddKeeps(pruned, m.nextLeaseId, c.read, g, Lease(m.nextLeaseId + 1, rid, owner), ttl, c.now);
    }
  }

  lemma ExtendKeeps(table: Table, next: nat, now: nat, g: Grants, lease: Lease, deadline: nat, later: nat)
    requires LeasesOk(table, next, now, g) && now <= later && Holds(table, lease.resourceId, lease.id)
    ensures lease.id in g
    ensures LeasesOk(table[lease.resourceId := table[lease.resourceId].(expiresAt := deadline)], next, later,
                     g[lease.id := g[lease.id].(deadline := deadline)])
  {
    assert EntryOk(lease.resourceId, table[lease.resourceId], g);
    var x := g[lease.id].(deadline := deadline);
    var table' := table[lease.resourceId := table[lease.resourceId].(expiresAt := deadline)];
    ChangeKeeps(table, next, now, g, lease.resourceId, x, table');
    TickKeeps(table', next, now, g[lease.id := x], later);
  }

  lemma RenewSectionKeeps(m: FabricState, g: Grants, lease: Lease, ttl: nat, c: Choice, x: Effect)
    requires LeasesOk(m.leases, m.nextLeaseId, m.now, g)
    requires m.now <= c.read <= c.now && PruneOk(m.leases, c.keep, m.now, c.read)
    requires x == RenewSection(lease, ttl, m, c)
    ensures LeasesOk(x.shared.leases, x.shared.nextLeaseId, c.now, RecordGrant(g, x.note))
  {
    var pruned := Pruned(m.leases, c.keep);
    PruneKeeps(m.leases, m.nextLeaseId, m.now, g, c.keep, c.read);
    if Holds(pruned, lease.resourceId, lease.id) {
      ExtendKeeps(pruned, m.nextLeaseId, c.read, g, lease, c.read + ttl, c.now);
    } else {
      TickKeeps(pruned, m.nextLeaseId, c.read, g, c.now);
    }
  }

  lemma CommitSectionKeeps(m: FabricState, g: Grants, lease: Lease, c: Choice, x: Effect)
    requires LeasesOk(m.leases, m.nextLeaseId, m.now, g) && m.now <= c.now
    requires x == CommitSection(lease, m, c)
    ensures LeasesOk(x.shared.leases, x.shared.nextLeaseId, c.now, RecordGrant(g, x.note))
  {
    TickKeeps(m.leases, m.nextLeaseId, m.now, g, c.now);
    if Holds(m.leases, lease.resourceId, lease.id) {
      assert EntryOk(lease.resourceId, m.leases[lease.resourceId], g);
      ChangeKeeps(m.leases, m.nextLeaseId, c.now, g, lease.resourceId,
                  g[lease.id].(releasedAt := Some(c.now)), m.leases - {lease.resourceId});
    }
  }

  /** The stages that write the lease table or the grant history. */
  predicate TouchesLeases(st: Stage) {
    st.LeaseGrant? || st.Renew? || st.ReleaseCommit?
  }

  lemma OthersKeepTable(st: Stage, m: FabricState, c: Choice, g: Grants)
    requires !TouchesLeases(st)
    ensures var x := Exec(st, m, c);
            && x.shared.leases == m.leases && x.shared.nextLeaseId == m.nextLeaseId
            && RecordGrant(g, x.note) == g
  {
  }

  lemma SectionKeeps(s: System, st: Stage, c: Choice, x: Effect)
    requires Inv(s) && ChoiceOk(st, s.shared, c) && x == Exec(st, s.shared, c)
    ensures LeasesOk(x.shared.leases, x.shared.nextLeaseId, c.now, Record(s.history, x.note).grants)
  {
    if st.LeaseGrant? {
      GrantSectionKeeps(s.shared, s.history.grants, st.resourceId, st.owner, st.ttl, c, x);
    } else if st.Renew? {
      RenewSectionKeeps(s.shared, s.history.grants, st.lease, st.ttl, c, x);
    } else if st.ReleaseCommit? {
      CommitSectionKeeps(s.shared, s.history.grants, st.lease, c, x);
    } else {
      OthersKeepTable(st, s.shared, c, s.history.grants);
      TickKeeps(s.shared.leases, s.shared.nextLeaseId, s.shared.now, s.history.grants, c.now);
    }
  }

  lemma StepKeepsInv(s: System, e: Event)
    requires Inv(s) && Possible(s, e)
    ensures Inv(Next(s, e))
  {
    if e.Run? {
      var st := s.threads[e.t].stage;
      SectionKeeps(s, st, e.choice, Exec(st, s.shared, e.choice));
    }
  }

  lemma {:induction false} RunKeepsInv(s: System, es: seq<Event>)
    requires Inv(s) && IsRun(s, es)
    ensures Inv(After(s, es))
    decreases |es|
  {
    if es != [] {
      StepKeepsInv(s, es[0]);
      RunKeepsInv(Next(s, es[0]), es[1..]);
    }
  }

  lemma InitOk(s: System)
    requires Init(s)
    ensures Inv(s)
  {
  }

  // ------------------------------------------------------------ the theorems

  /** In every run, when a lease was granted, every earlier lease of its resource
      had been released or had passed its latest deadline. So at no instant are
      two leases of one resource live. */
  lemma AtMostOneLiveLease(s: System, es: seq<Event>, a: nat, b: nat)
    requires Init(s) && IsRun(s, es)
    requires var g := After(s, es).history.grants;
             a in g && b in g && a < b && g[a].resourceId == g[b].resourceId
    ensures var g := After(s, es).history.grants;
            && Ended(g[a], g[b].grantedAt)
            && forall at :: !(LiveAt(g[a], at) && LiveAt(g[b], at))
  {
    InitOk(s);
    RunKeepsInv(s, es);
  }

  /** Only the grant section answers with a lease. */
  lemma OnlyGrantLeases(st: Stage, m: FabricState, c: Choice)
    requires Exec(st, m, c).next.Idle? && Exec(st, m, c).next.reply.Leased?
    ensures st.LeaseGrant?
  {
    if OnlyReads(st) {
      LooksNeverLease(st, m, c);
    }
  }

  lemma LooksNeverLease(st: Stage, m: FabricState, c: Choice)
    requires OnlyReads(st)
    ensures Look(st, m, c).Idle? ==> !Look(st, m, c).reply.Leased?
  {
  }

  /** A granted id was never granted before, and the history ties it for good to
      the resource it was granted for. */
  lemma GrantedIdIsNew(s: System, t: nat, c: Choice)
    requires Inv(s) && Possible(s, Run(t, c))
    requires Next(s, Run(t, c)).threads[t].Idle? && Next(s, Run(t, c)).threads[t].reply.Leased?
    ensures var lease := Next(s, Run(t, c)).threads[t].reply.lease;
            var old_, g := s.history.grants, Next(s, Run(t, c)).history.grants;
            && lease.id !in old_ && lease.id in g && g[lease.id].resourceId == lease.resourceId
            && forall id :: id in old_ ==> id < lease.id && id in g && g[id] == old_[id]
  {
    var st := s.threads[t].stage;
    var g := s.history.grants;
    OnlyGrantLeases(st, s.shared, c);
    forall id | id in g ensures id < s.shared.nextLeaseId + 1 {
      assert GrantOk(id, g[id], s.shared.leases, s.shared.nextLeaseId, s.shared.now);
    }
  }

  predicate Justified(st: Stage, m: FabricState, c: Choice, rid: string)
    requires rid in m.leases
  {
    || (st.ReleaseCommit? && st.lease.id == m.leases[rid].lease.id && st.lease.resourceId == rid)
    || ((st.LeaseGrant? || st.Renew?) && m.leases[rid].expiresAt <= c.read)
  }

  lemma SectionRemoval(st: Stage, m: FabricState, c: Choice, rid: string)
    requires ChoiceOk(st, m, c) && rid in m.leases
    requires !Holds(Exec(st, m, c).shared.leases, rid, m.leases[rid].lease.id)
    ensures Justified(st, m, c, rid)
  {
    if !TouchesLeases(st) {
      OthersKeepTable(st, m, c, map[]);
    }
  }

  /** Whatever leaves the table was named by the release that removes it, or had
      lapsed at a clock reading of the prune that drops it. A release stalled
      between its two sections therefore never takes another holder's lease. */
  lemma RemovalIsJustified(s: System, e: Event, rid: string)
    requires Possible(s, e) && rid in s.shared.leases
    requires !Holds(Next(s, e).shared.leases, rid, s.shared.leases[rid].lease.id)
    ensures e.Run? && Justified(s.threads[e.t].stage, s.shared, e.choice, rid)
  {
    if e.Run? {
      SectionRemoval(s.threads[e.t].stage, s.shared, e.choice, rid);
    }
  }

  /** Granted once, and no longer in the table. */
  ghost predicate Dead(s: System, id: nat) {
    id in s.history.grants && forall rid :: rid in s.shared.leases ==> s.shared.leases[rid].lease.id != id
  }

  lemma DeadSection(st: Stage, m: FabricState, c: Choice, g: Grants, id: nat, x: Effect)
    requires id in g && id <= m.nextLeaseId && x == Exec(st, m, c)
    requires forall rid :: rid in m.leases ==> m.leases[rid].lease.id != id
    ensures (forall rid :: rid in x.shared.leases ==> x.shared.leases[rid].lease.id != id)
            && id in RecordGrant(g, x.note) && RecordGrant(g, x.note)[id] == g[id]
  {
    if TouchesLeases(st) {
      DeadWriter(st, m, c, g, id, x);
    } else {
      OthersKeepTable(st, m, c, g);
    }
  }

  lemma DeadWriter(st: Stage, m: FabricState, c: Choice, g: Grants, id: nat, x: Effect)
    requires TouchesLeases(st) && id in g && id <= m.nextLeaseId && x == Exec(st, m, c)
    requires forall rid :: rid in m.leases ==> m.leases[rid].lease.id != id
    ensures (forall rid :: rid in x.shared.leases ==> x.shared.leases[rid].lease.id != id)
            && id in RecordGrant(g, x.note) && RecordGrant(g, x.note)[id] == g[id]
  {
  }

  lemma DeadStep(s: System, e: Event, id: nat)
    requires Inv(s) && Possible(s, e) && Dead(s, id)
    ensures Dead(Next(s, e), id) && Next(s, e).history.grants[id] == s.history.grants[id]
  {
    assert GrantOk(id, s.history.grants[id], s.shared.leases, s.shared.nextLeaseId, s.shared.now);
    if e.Run? {
      var st := s.threads[e.t].stage;
      DeadSection(st, s.shared, e.choice, s.history.grants, id, Exec(st, s.shared, e.choice));
    }
  }

  /** The answers a lease gets at the sections that look it up. */
  predicate Presents(st: Stage, id: nat) {
    match st
    case Renew(lease, _) => lease.id == id
    case AttachCheck(_, lease, _) => lease.id == id
    case ReleaseCheck(lease) => lease.id == id
    case ReleaseCommit(lease) => lease.id == id
    case _ => false
  }

  /** A lease id that has left the table is dead for the rest of any run: it is
      never extended, never released, never granted again, and every section that
      a renewal, an attach or a release presents it to answers LeaseNotFound. */
  lemma {:induction false} DeadForever(s: System, es: seq<Event>, id: nat, e: Event)
    requires Inv(s) && IsRun(s, es) && Dead(s, id)
    requires Possible(After(s, es), e) && e.Run? && Presents(After(s, es).threads[e.t].stage, id)
    ensures Dead(After(s, es), id) && After(s, es).history.grants[id] == s.history.grants[id]
    ensures Next(After(s, es), e).threads[e.t] == Idle(Failed(LeaseNotFound))
    decreases |es|
  {
    if es != [] {
      DeadStep(s, es[0], id);
      StepKeepsInv(s, es[0]);
      DeadForever(Next(s, es[0]), es[1..], id, e);
    }
  }
}
