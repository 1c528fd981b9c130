/** What attach and release may rely on between their sections, in every interleaving. */
module AttachSafety {
  import opened FabricTypes
  import opened FabricState
  import opened Interleaving
  import LeaseSafety
  import LockOrder

  type Grants = map<nat, Grant>

  /** The lease carries an id that was granted for the resource it names. */
  predicate GrantedFor(lease: Lease, g: Grants) {
    lease.id in g && g[lease.id].resourceId == lease.resourceId
  }

  /** The stage is inside an adapter call made by attach. */
  predicate InAttach(st: Stage) {
    st.AttachAdapter? || st.VmCheck? || st.VmProbe? || st.VmLaunch? || st.VmRecord?
    || st.StoreInsert? || st.GpuReserve? || st.AttachRecord?
  }

  predicate InRelease(st: Stage) {
    st.ReleaseTake? || st.ReleaseLookup? || st.ReleaseAdapter? || st.ReleaseDetach? || st.ReleaseCommit?
  }

  /** The resource a stage carries is the one its lease names. */
  predicate CarriesOwn(st: Stage) {
    match st
    case AttachCheck(_, lease, r) => r.id == lease.resourceId
    case AttachAdapter(_, lease, r) => r.id == lease.resourceId
    case VmCheck(_, lease, r) => r.id == lease.resourceId
    case VmProbe(_, lease, r) => r.id == lease.resourceId
    case VmLaunch(_, lease, r) => r.id == lease.resourceId
    case VmRecord(_, lease, r) => r.id == lease.resourceId
    case StoreInsert(_, lease, store) => store.resourceId == lease.resourceId
    case ReleaseAdapter(lease, _, r) => r.id == lease.resourceId
    case ReleaseDetach(lease, r) => r.id == lease.resourceId
    case _ => true
  }

  predicate StageOk(st: Stage, m: FabricState, g: Grants) {
    && CarriesOwn(st)
    && (InAttach(st) ==> Matches(m, st.lease))
    && (InAttach(st) || InRelease(st) ==> GrantedFor(st.lease, g))
  }

  ghost predicate RegistryOk(m: FabricState) {
    forall id :: id in m.resources ==> m.resources[id].id == id
  }

  ghost predicate LiveOk(m: FabricState, g: Grants) {
    forall id :: id in m.live ==> id in g && g[id].resourceId == m.live[id].resourceId
  }

  ghost predicate Inv(s: System) {
    && LeaseSafety.Inv(s)
    && LockOrder.Apart(s)
    && RegistryOk(s.shared)
    && LiveOk(s.shared, s.history.grants)
    && forall t :: t in s.threads && s.threads[t].At? ==> StageOk(s.threads[t].stage, s.shared, s.history.grants)
  }

  // ---------------------------------------------------------- one section

  /** What is asked of the stage a section hands over to. */
  predicate NextOk(st: Stage, next: Thread, m: FabricState, g: Grants) {
    next.At? ==>
      && CarriesOwn(next.stage)
      && (InAttach(next.stage) ==> Matches(m, next.stage.lease) && !LeaseSafety.TouchesLeases(st))
      && (InAttach(next.stage) || InRelease(next.stage) ==> GrantedFor(next.stage.lease, g))
  }

  lemma AdapterNext(st: Stage, m: FabricState, c: Choice, g: Grants)
    requires st.AttachAdapter? && StageOk(st, m, g)
    ensures NextOk(st, AdapterSection(st.adapter, st.lease, st.resource, m, c), m, g)
  {
  }

  lemma AttachNext(st: Stage, m: FabricState, c: Choice, g: Grants)
    requires InAttach(st) && StageOk(st, m, g)
    ensures NextOk(st, Exec(st, m, c).next, m, g)
  {
    if st.AttachAdapter? {
      AdapterNext(st, m, c, g);
    } else if OnlyReads(st) {
      AttachLooks(st, m, c, g);
    }
  }

  lemma AttachLooks(st: Stage, m: FabricState, c: Choice, g: Grants)
    requires InAttach(st) && !st.AttachAdapter? && OnlyReads(st) && StageOk(st, m, g)
    ensures NextOk(st, Look(st, m, c), m, g)
  {
  }

  lemma ReleaseNext(st: Stage, m: FabricState, c: Choice, g: Grants)
    requires InRelease(st) && StageOk(st, m, g) && RegistryOk(m)
    ensures NextOk(st, Exec(st, m, c).next, m, g)
  {
    if OnlyReads(st) {
      ReleaseLooks(st, m, c, g);
    }
  }

  lemma ReleaseLooks(st: Stage, m: FabricState, c: Choice, g: Grants)
    requires InRelease(st) && OnlyReads(st) && StageOk(st, m, g) && RegistryOk(m)
    ensures NextOk(st, Look(st, m, c), m, g)
  {
  }

  lemma CheckNext(st: Stage, m: FabricState, c: Choice, g: Grants)
    requires st.AttachCheck? || st.ReleaseCheck?
    requires StageOk(st, m, g) && LeaseSafety.TableOk(m.leases, g)
    ensures NextOk(st, Exec(st, m, c).next, m, g)
  {
    if Matches(m, st.lease) {
      assert LeaseSafety.EntryOk(st.lease.resourceId, m.leases[st.lease.resourceId], g);
    }
  }

  /** No section but those of attach and release leads into one of theirs, except a lookup. */
  lemma OtherNext(st: Stage, m: FabricState, c: Choice, g: Grants)
    requires !InAttach(st) && !InRelease(st) && !st.AttachCheck? && !st.ReleaseCheck? && RegistryOk(m)
    ensures NextOk(st, Exec(st, m, c).next, m, g)
  {
    if OnlyReads(st) {
      LookNext(st, m, c, g);
    }
  }

  lemma LookNext(st: Stage, m: FabricState, c: Choice, g: Grants)
    requires !InAttach(st) && !InRelease(st) && !st.AttachCheck? && !st.ReleaseCheck? && RegistryOk(m)
    requires OnlyReads(st)
    ensures NextOk(st, Look(st, m, c), m, g)
  {
  }

  lemma OwnNext(st: Stage, m: FabricState, c: Choice, g: Grants, next: Thread)
    requires StageOk(st, m, g) && RegistryOk(m) && LeaseSafety.TableOk(m.leases, g)
    requires next == Exec(st, m, c).next
    ensures NextOk(st, next, m, g)
  {
    if InAttach(st) {
      AttachNext(st, m, c, g);
    } else if InRelease(st) {
      ReleaseNext(st, m, c, g);
    } else if st.AttachCheck? || st.ReleaseCheck? {
      CheckNext(st, m, c, g);
    } else {
      OtherNext(st, m, c, g);
    }
  }

  lemma RegistrySame(st: Stage, m: FabricState, c: Choice)
    requires !st.Register? && !st.UnregisterRemove?
    ensures Exec(st, m, c).shared.resources == m.resources
  {
  }

  lemma RegistryKept(st: Stage, m: FabricState, c: Choice)
    requires RegistryOk(m)
    ensures RegistryOk(Exec(st, m, c).shared)
  {
    if !st.Register? && !st.UnregisterRemove? {
      RegistrySame(st, m, c);
    }
  }

  lemma LiveSame(st: Stage, m: FabricState, c: Choice)
    requires !st.StoreInsert? && !st.ReleaseDetach?
    ensures Exec(st, m, c).shared.live == m.live
  {
  }

  lemma LiveKept(st: Stage, m: FabricState, c: Choice, g: Grants)
    requires LiveOk(m, g) && StageOk(st, m, g)
    ensures LiveOk(Exec(st, m, c).shared, g)
  {
    if !st.StoreInsert? && !st.ReleaseDetach? {
      LiveSame(st, m, c);
    }
  }

  predicate Grows(g: Grants, g': Grants) {
    forall id :: id in g ==> id in g' && g'[id].resourceId == g[id].resourceId
  }

  /** The history never forgets which resource an id was granted for. */
  lemma GrantsGrow(st: Stage, m: FabricState, c: Choice, g: Grants)
    requires forall id :: id in g ==> id <= m.nextLeaseId
    ensures Grows(g, RecordGrant(g, Exec(st, m, c).note))
  {
    if !LeaseSafety.TouchesLeases(st) {
      LeaseSafety.OthersKeepTable(st, m, c, g);
    }
  }

  lemma IdsBounded(s: System)
    requires LeaseSafety.Inv(s)
    ensures forall id :: id in s.history.grants ==> id <= s.shared.nextLeaseId
  {
    forall id | id in s.history.grants ensures id <= s.shared.nextLeaseId {
      assert LeaseSafety.GrantOk(id, s.history.grants[id], s.shared.leases, s.shared.nextLeaseId, s.shared.now);
    }
  }

  /** The thread is inside an adapter, or about to write the lease table. */
  predicate NeedsLeaseLock(th: Thread) {
    th.At? && (InAttach(th.stage) || (AtSection(th) && LeaseSafety.TouchesLeases(th.stage)))
  }

  lemma HasLeaseLock(th: Thread)
    ensures NeedsLeaseLock(th) ==> Hold(Leases, Write) in Held(th)
  {
  }

  /** The lease lock admits one such thread at a time. */
  lemma OneLeaseWriter(s: System, t: nat, u: nat)
    requires LockOrder.Apart(s) && t in s.threads && u in s.threads && t != u
    requires NeedsLeaseLock(s.threads[t])
    ensures !NeedsLeaseLock(s.threads[u])
  {
    HasLeaseLock(s.threads[t]);
    HasLeaseLock(s.threads[u]);
    assert Conflict(Hold(Leases, Write), Hold(Leases, Write));
  }

  lemma ThreadsOk(s: System, e: Event, u: nat)
    requires Inv(s) && Possible(s, e)
    requires u in s.threads && Next(s, e).threads[u].At?
    ensures var s' := Next(s, e); StageOk(s'.threads[u].stage, s'.shared, s'.history.grants)
  {
    if e.Run? {
      var st, c := s.threads[e.t].stage, e.choice;
      IdsBounded(s);
      GrantsGrow(st, s.shared, c, s.history.grants);
      if !LeaseSafety.TouchesLeases(st) {
        LeaseSafety.OthersKeepTable(st, s.shared, c, s.history.grants);
      } else if u != e.t {
        OneLeaseWriter(s, e.t, u);
      }
      if u == e.t {
        OwnNext(st, s.shared, c, s.history.grants, Next(s, e).threads[u]);
      }
    }
  }

  lemma StepKeepsInv(s: System, e: Event)
    requires Inv(s) && Possible(s, e)
    ensures Inv(Next(s, e))
  {
    LeaseSafety.StepKeepsInv(s, e);
    LockOrder.StepKeepsApart(s, e);
    forall u | u in s.threads && Next(s, e).threads[u].At?
      ensures StageOk(Next(s, e).threads[u].stage, Next(s, e).shared, Next(s, e).history.grants)
    {
      ThreadsOk(s, e, u);
    }
    if e.Run? {
      var st, c := s.threads[e.t].stage, e.choice;
      IdsBounded(s);
      GrantsGrow(st, s.shared, c, s.history.grants);
      RegistryKept(st, s.shared, c);
      LiveKept(st, s.shared, c, s.history.grants);
    }
  }

  lemma {:induction false} RunKeepsInv(s: System, es: seq<Event>)
    requires Inv(s) && IsRun(s, es)
    ensures Inv(After(s, es))
    decreases |es|
  {
    if es != [] {
      StepKeepsInv(s, es[0]);
      RunKeepsInv(Next(s, es[0]), es[1..]);
    }
  }

  // ------------------------------------------------------------ the theorems

  /** In every run, an adapter attaches for a lease that is in the table; and no
      other thread is inside an adapter or about to write the table, so the lease
      cannot be pruned, released or regranted before the attachment is recorded. */
  lemma AttachWorksOnAStandingLease(s: System, es: seq<Event>, t: nat, u: nat)
    requires Init(s) && IsRun(s, es)
    requires t in After(s, es).threads && After(s, es).threads[t].At? && InAttach(After(s, es).threads[t].stage)
    requires u in After(s, es).threads && u != t
    ensures Matches(After(s, es).shared, After(s, es).threads[t].stage.lease)
    ensures !NeedsLeaseLock(After(s, es).threads[u])
  {
    RunKeepsInv(s, es);
    OneLeaseWriter(After(s, es), t, u);
    assert StageOk(After(s, es).threads[t].stage, After(s, es).shared, After(s, es).history.grants);
  }

  /** In every run, the store adapter never finds a foreign resource under the
      lease it is asked to detach: that branch of detach is dead. */
  lemma DetachNeverMismatches(s: System, es: seq<Event>, t: nat)
    requires Init(s) && IsRun(s, es)
    requires t in After(s, es).threads && After(s, es).threads[t].At? && After(s, es).threads[t].stage.ReleaseDetach?
    ensures var st := After(s, es).threads[t].stage;
            DetachSection(st.lease, st.resource, After(s, es).shared).next == At(ReleaseCommit(st.lease), false)
  {
    RunKeepsInv(s, es);
    DetachMatches(After(s, es).threads[t].stage, After(s, es).shared, After(s, es).history.grants);
  }

  lemma DetachMatches(st: Stage, m: FabricState, g: Grants)
    requires st.ReleaseDetach? && StageOk(st, m, g) && LiveOk(m, g)
    ensures DetachSection(st.lease, st.resource, m).next == At(ReleaseCommit(st.lease), false)
  {
  }
}
