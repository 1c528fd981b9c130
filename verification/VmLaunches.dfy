/** A VM is launched at most once more than it was removed, in every interleaving
    of attach and reconcile, as long as the VM name of its resource is fixed. */
module VmLaunches {
  import opened FabricTypes
  import opened FabricState
  import opened Interleaving
  import LockOrder

  /** Every resource value a stage carries under id `vm` names the VM `name`. */
  predicate Named(r: Resource, vm: string, name: string) {
    r.id == vm ==> VmName(r) == name
  }

  ghost predicate TodoNamed(todo: seq<RegistryOp>, vm: string, name: string) {
    forall op :: op in todo && op.Add? ==> Named(op.resource, vm, name)
  }

  ghost predicate StageNamed(st: Stage, vm: string, name: string) {
    match st
    case Register(r, todo) => Named(r, vm, name) && TodoNamed(todo, vm, name)
    case UnregisterCheck(_, todo) => TodoNamed(todo, vm, name)
    case UnregisterRemove(_, todo) => TodoNamed(todo, vm, name)
    case AttachCheck(_, _, r) => Named(r, vm, name)
    case AttachAdapter(_, _, r) => Named(r, vm, name)
    case VmCheck(_, _, r) => Named(r, vm, name)
    case VmProbe(_, _, r) => Named(r, vm, name)
    case VmLaunch(_, _, r) => Named(r, vm, name)
    case VmRecord(_, _, r) => Named(r, vm, name)
    case RefreshScan(rs) => forall r :: r in rs ==> Named(r, vm, name)
    case _ => true
  }

  ghost predicate AllNamed(s: System, vm: string, name: string) {
    && (forall id :: id in s.shared.resources ==> Named(s.shared.resources[id], vm, name))
    && (forall t :: t in s.threads && s.threads[t].At? ==> StageNamed(s.threads[t].stage, vm, name))
  }

  /** The calls of a run never present the resource under another VM name. */
  ghost predicate NameFixed(es: seq<Event>, vm: string, name: string) {
    forall e :: e in es && e.Begin? ==> StageNamed(e.stage, vm, name)
  }

  /** The thread found no managed VM and may launch one. */
  predicate Launching(th: Thread, vm: string) {
    th.At? && (th.stage.VmProbe? || th.stage.VmLaunch?) && th.stage.resource.id == vm
  }

  /** The thread has a running VM that it has not recorded yet. */
  predicate Recording(th: Thread, vm: string) {
    th.At? && th.stage.VmRecord? && th.stage.resource.id == vm
  }

  /** The thread removed the VM and has not forgotten it yet. */
  predicate Forgetting(th: Thread, vm: string) {
    th.At? && th.stage.ReconcileForget? && th.stage.vm == vm
  }

  ghost function Forgetters(s: System, vm: string): set<nat> {
    set t | t in s.threads && Forgetting(s.threads[t], vm)
  }

  /** A VM is on the books, or about to be. */
  ghost predicate Present(s: System, vm: string) {
    vm in s.shared.managed || exists t :: t in s.threads && Recording(s.threads[t], vm)
  }

  ghost predicate Inv(s: System, vm: string, name: string) {
    && LockOrder.Apart(s)
    && AllNamed(s, vm, name)
    && (vm in s.shared.managed ==> s.shared.managed[vm].vmName == name)
    && (forall t :: t in s.threads && Launching(s.threads[t], vm) ==> vm !in s.shared.managed)
    && Count(s.history.launches, vm) <= Count(s.history.forgets, vm) + (if Present(s, vm) then 1 else 0)
    && Count(s.history.removals, vm) == Count(s.history.forgets, vm) + |Forgetters(s, vm)|
  }

  // ------------------------------------------------------- names stay fixed

  lemma ContinueNamed(todo: seq<RegistryOp>, last: Reply, vm: string, name: string)
    requires TodoNamed(todo, vm, name)
    ensures Continue(todo, last).At? ==> StageNamed(Continue(todo, last).stage, vm, name)
  {
    if todo != [] {
      assert todo[0] in todo;
      assert forall op :: op in todo[1..] ==> op in todo;
    }
  }

  lemma {:induction false} AddsNamed(rs: seq<Resource>, known: set<string>, ids: seq<string>, vm: string, name: string)
    requires forall r :: r in rs ==> Named(r, vm, name)
    ensures TodoNamed(Adds(rs, known) + Drops(ids), vm, name)
  {
    if rs != [] {
      assert rs[0] in rs && forall r :: r in rs[1..] ==> r in rs;
      AddsNamed(rs[1..], known, ids, vm, name);
      var tail := Adds(rs[1..], known);
      var head := if rs[0].id in known then [] else [Add(rs[0])];
      assert Adds(rs, known) == head + tail;
      forall op | op in Adds(rs, known) + Drops(ids) && op.Add? ensures Named(op.resource, vm, name) {
        assert op in head || op in tail + Drops(ids);
      }
    }
  }

  predicate WalksTodo(st: Stage) {
    st.Register? || st.UnregisterCheck? || st.UnregisterRemove? || st.EvictScan? || st.RefreshScan?
  }

  lemma TodoSectionNamed(st: Stage, m: FabricState, c: Choice, vm: string, name: string)
    requires WalksTodo(st) && StageNamed(st, vm, name)
    ensures var x := Exec(st, m, c); x.next.At? ==> StageNamed(x.next.stage, vm, name)
  {
    match st
    case Register(r, todo) => ContinueNamed(todo, Finished, vm, name);
    case UnregisterCheck(id, todo) => ContinueNamed(todo, Failed(ResourceAlreadyLeased), vm, name);
    case UnregisterRemove(id, todo) => ContinueNamed(todo, Unregistered(id in m.resources), vm, name);
    case EvictScan(_) => ContinueNamed(Drops(c.order), Finished, vm, name);
    case RefreshScan(rs) =>
      AddsNamed(rs, m.resources.Keys, c.order, vm, name);
      ContinueNamed(Adds(rs, m.resources.Keys) + Drops(c.order), Finished, vm, name);
  }

  lemma OtherSectionNamed(st: Stage, m: FabricState, c: Choice, vm: string, name: string)
    requires !WalksTodo(st) && StageNamed(st, vm, name)
    requires st.AttachLookup? && st.lease.resourceId in m.resources ==>
               Named(m.resources[st.lease.resourceId], vm, name)
    ensures var x := Exec(st, m, c); x.next.At? ==> StageNamed(x.next.stage, vm, name)
  {
  }

  lemma RegistryWrites(st: Stage, m: FabricState, c: Choice, id: string)
    requires id in Exec(st, m, c).shared.resources
    ensures (id in m.resources && Exec(st, m, c).shared.resources[id] == m.resources[id])
         || (st.Register? && st.resource.id == id && Exec(st, m, c).shared.resources[id] == st.resource)
  {
  }

  lemma StepNamed(s: System, e: Event, vm: string, name: string)
    requires AllNamed(s, vm, name) && Possible(s, e)
    requires e.Begin? ==> StageNamed(e.stage, vm, name)
    ensures AllNamed(Next(s, e), vm, name)
  {
    if e.Run? {
      var st, m, c := s.threads[e.t].stage, s.shared, e.choice;
      var x := Exec(st, m, c);
      if WalksTodo(st) {
        TodoSectionNamed(st, m, c, vm, name);
      } else {
        OtherSectionNamed(st, m, c, vm, name);
      }
      forall id | id in x.shared.resources ensures Named(x.shared.resources[id], vm, name) {
        RegistryWrites(st, m, c, id);
      }
    }
  }

  // --------------------------------------------- what a section does to the VM

  predicate TouchesVm(st: Stage) {
    st.VmCheck? || st.VmProbe? || st.VmLaunch? || st.VmRecord? || st.ReconcileRemove? || st.ReconcileForget?
  }

  predicate SameCounts(h: History, h': History) {
    h'.launches == h.launches && h'.removals == h.removals && h'.forgets == h.forgets
  }

  /** The thread is at none of the stages that count for the VM. */
  predicate Aside(th: Thread, vm: string) {
    !Launching(th, vm) && !Recording(th, vm) && !Forgetting(th, vm)
  }

  lemma LooksAside(st: Stage, m: FabricState, c: Choice, vm: string)
    requires OnlyReads(st) && !TouchesVm(st)
    ensures Aside(Look(st, m, c), vm)
  {
  }

  lemma OthersLeaveVms(st: Stage, m: FabricState, c: Choice, h: History, vm: string)
    requires !TouchesVm(st)
    ensures var x := Exec(st, m, c);
            x.shared.managed == m.managed && SameCounts(h, Record(h, x.note)) && Aside(x.next, vm)
  {
    if OnlyReads(st) {
      LooksAside(st, m, c, vm);
    }
  }

  /** The lease lock admits one thread between the check and the record. */
  lemma OneInside(s: System, t: nat, u: nat, vm: string)
    requires LockOrder.Apart(s) && t in s.threads && u in s.threads
    requires Launching(s.threads[t], vm) || Recording(s.threads[t], vm)
    requires Launching(s.threads[u], vm) || Recording(s.threads[u], vm)
    ensures t == u
  {
    var h := Hold(Leases, Write);
    assert h in Held(s.threads[t]) && h in Held(s.threads[u]) && Conflict(h, h);
  }

  lemma ForgettersStep(s: System, s': System, t: nat, vm: string)
    requires t in s.threads && t in s'.threads && s'.threads == s.threads[t := s'.threads[t]]
    ensures |Forgetters(s', vm)| - |Forgetters(s, vm)|
            == (if Forgetting(s'.threads[t], vm) then 1 else 0) - (if Forgetting(s.threads[t], vm) then 1 else 0)
  {
    var rest := Forgetters(s, vm) - {t};
    assert Forgetters(s, vm) == if Forgetting(s.threads[t], vm) then rest + {t} else rest;
    assert Forgetters(s', vm) == if Forgetting(s'.threads[t], vm) then rest + {t} else rest;
  }

  // ------------------------------------------------------------- the invariant

  /** The thread `t` moves on; nobody else does. */
  lemma PresentStep(s: System, s': System, t: nat, vm: string)
    requires t in s.threads && t in s'.threads && s'.threads == s.threads[t := s'.threads[t]]
    requires vm in s.shared.managed ==> vm in s'.shared.managed || Recording(s'.threads[t], vm)
    requires Recording(s.threads[t], vm) ==> vm in s'.shared.managed || Recording(s'.threads[t], vm)
    ensures Present(s, vm) ==> Present(s', vm)
  {
    if u :| u in s.threads && Recording(s.threads[u], vm) {
      if u != t {
        assert Recording(s'.threads[u], vm);
      }
    }
  }

  /** What has to be seen of one step for the invariant to carry over it. */
  ghost predicate Carries(s: System, s': System, t: nat, vm: string, name: string)
    requires t in s.threads && t in s'.threads
  {
    && (vm in s'.shared.managed ==> s'.shared.managed[vm].vmName == name)
    && (Launching(s'.threads[t], vm) ==> vm !in s'.shared.managed)
    && (vm in s'.shared.managed ==> vm in s.shared.managed || Recording(s.threads[t], vm))
    && Count(s'.history.launches, vm) <= Count(s'.history.forgets, vm) + (if Present(s', vm) then 1 else 0)
    && Count(s'.history.removals, vm) - Count(s'.history.forgets, vm)
       == Count(s.history.removals, vm) - Count(s.history.forgets, vm)
        + (if Forgetting(s'.threads[t], vm) then 1 else 0) - (if Forgetting(s.threads[t], vm) then 1 else 0)
  }

  lemma Carry(s: System, s': System, t: nat, vm: string, name: string)
    requires Inv(s, vm, name) && LockOrder.Apart(s') && AllNamed(s', vm, name)
    requires t in s.threads && t in s'.threads && s'.threads == s.threads[t := s'.threads[t]]
    requires Carries(s, s', t, vm, name)
    ensures Inv(s', vm, name)
  {
    ForgettersStep(s, s', t, vm);
    forall u | u in s'.threads && Launching(s'.threads[u], vm) ensures vm !in s'.shared.managed {
      if u != t && Recording(s.threads[t], vm) {
        OneInside(s, t, u, vm);
      }
    }
  }

  lemma LaunchEffect(st: Stage, m: FabricState, c: Choice, h: History, vm: string)
    requires st.VmLaunch?
    ensures var x := Exec(st, m, c);
            var h' := Record(h, x.note);
            && x.shared.managed == m.managed && h'.removals == h.removals && h'.forgets == h.forgets
            && !Launching(x.next, vm) && !Forgetting(x.next, vm)
            && (Recording(x.next, vm) ==> st.resource.id == vm)
            && Count(h'.launches, vm) == Count(h.launches, vm) + (if Recording(x.next, vm) then 1 else 0)
  {
  }

  lemma LaunchStep(s: System, t: nat, c: Choice, vm: string, name: string)
    requires Inv(s, vm, name) && Possible(s, Run(t, c)) && s.threads[t].stage.VmLaunch?
    ensures Carries(s, Next(s, Run(t, c)), t, vm, name)
  {
    var s' := Next(s, Run(t, c));
    LaunchEffect(s.threads[t].stage, s.shared, c, s.history, vm);
    if Recording(s'.threads[t], vm) {
      assert Launching(s.threads[t], vm);
      assert Present(s', vm);
      if Present(s, vm) {
        var u :| u in s.threads && Recording(s.threads[u], vm);
        OneInside(s, t, u, vm);
      }
    } else {
      PresentStep(s, s', t, vm);
    }
  }

  lemma QuietStep(s: System, t: nat, c: Choice, vm: string, name: string)
    requires Inv(s, vm, name) && Possible(s, Run(t, c)) && !TouchesVm(s.threads[t].stage)
    ensures Carries(s, Next(s, Run(t, c)), t, vm, name)
  {
    var s' := Next(s, Run(t, c));
    OthersLeaveVms(s.threads[t].stage, s.shared, c, s.history, vm);
    PresentStep(s, s', t, vm);
  }

  lemma ProbeStep(s: System, t: nat, c: Choice, vm: string, name: string)
    requires Inv(s, vm, name) && Possible(s, Run(t, c)) && s.threads[t].stage.VmProbe?
    ensures Carries(s, Next(s, Run(t, c)), t, vm, name)
  {
    PresentStep(s, Next(s, Run(t, c)), t, vm);
  }

  lemma RecordEffect(st: Stage, m: FabricState, c: Choice, h: History, vm: string)
    requires st.VmRecord?
    ensures var x := Exec(st, m, c);
            && SameCounts(h, Record(h, x.note)) && Aside(x.next, vm)
            && x.shared.managed == m.managed[st.resource.id := VmRecordOf(st.resource)]
  {
  }

  lemma RecordStep(s: System, t: nat, c: Choice, vm: string, name: string)
    requires Inv(s, vm, name) && Possible(s, Run(t, c)) && s.threads[t].stage.VmRecord?
    ensures Carries(s, Next(s, Run(t, c)), t, vm, name)
  {
    RecordEffect(s.threads[t].stage, s.shared, c, s.history, vm);
    PresentStep(s, Next(s, Run(t, c)), t, vm);
  }

  lemma CheckStep(s: System, t: nat, c: Choice, vm: string, name: string)
    requires Inv(s, vm, name) && Possible(s, Run(t, c)) && s.threads[t].stage.VmCheck?
    ensures Carries(s, Next(s, Run(t, c)), t, vm, name)
  {
    PresentStep(s, Next(s, Run(t, c)), t, vm);
  }

  lemma RemoveEffect(st: Stage, m: FabricState, c: Choice, h: History, vm: string)
    requires st.ReconcileRemove?
    ensures var x := Exec(st, m, c);
            var h' := Record(h, x.note);
            && x.shared.managed == m.managed && h'.launches == h.launches && h'.forgets == h.forgets
            && !Launching(x.next, vm) && !Recording(x.next, vm)
            && Count(h'.removals, vm) == Count(h.removals, vm) + (if Forgetting(x.next, vm) then 1 else 0)
  {
  }

  lemma RemoveStep(s: System, t: nat, c: Choice, vm: string, name: string)
    requires Inv(s, vm, name) && Possible(s, Run(t, c)) && s.threads[t].stage.ReconcileRemove?
    ensures Carries(s, Next(s, Run(t, c)), t, vm, name)
  {
    RemoveEffect(s.threads[t].stage, s.shared, c, s.history, vm);
    PresentStep(s, Next(s, Run(t, c)), t, vm);
  }

  lemma ForgetEffect(st: Stage, m: FabricState, c: Choice, h: History, vm: string)
    requires st.ReconcileForget?
    ensures var x := Exec(st, m, c);
            var h' := Record(h, x.note);
            && x.shared.managed == m.managed - {st.vm} && h'.launches == h.launches && h'.removals == h.removals
            && !Launching(x.next, vm) && !Recording(x.next, vm) && !Forgetting(x.next, vm)
            && Count(h'.forgets, vm) == Count(h.forgets, vm) + (if st.vm == vm then 1 else 0)
  {
  }

  lemma ForgetStep(s: System, t: nat, c: Choice, vm: string, name: string)
    requires Inv(s, vm, name) && Possible(s, Run(t, c)) && s.threads[t].stage.ReconcileForget?
    ensures Carries(s, Next(s, Run(t, c)), t, vm, name)
  {
    ForgetEffect(s.threads[t].stage, s.shared, c, s.history, vm);
    if s.threads[t].stage.vm != vm {
      PresentStep(s, Next(s, Run(t, c)), t, vm);
    }
  }

  lemma VmStep(s: System, t: nat, c: Choice, vm: string, name: string, s': System)
    requires Inv(s, vm, name) && Possible(s, Run(t, c)) && TouchesVm(s.threads[t].stage)
    requires s' == Next(s, Run(t, c))
    ensures Carries(s, s', t, vm, name)
  {
    var st := s.threads[t].stage;
    if st.VmLaunch? {
      LaunchStep(s, t, c, vm, name);
    } else if st.VmCheck? {
      CheckStep(s, t, c, vm, name);
    } else if st.VmProbe? {
      ProbeStep(s, t, c, vm, name);
    } else if st.VmRecord? {
      RecordStep(s, t, c, vm, name);
    } else if st.ReconcileRemove? {
      RemoveStep(s, t, c, vm, name);
    } else {
      ForgetStep(s, t, c, vm, name);
    }
  }

  lemma StepKeepsInv(s: System, e: Event, vm: string, name: string)
    requires Inv(s, vm, name) && Possible(s, e)
    requires e.Begin? ==> StageNamed(e.stage, vm, name)
    ensures Inv(Next(s, e), vm, name)
  {
    LockOrder.StepKeepsApart(s, e);
    StepNamed(s, e, vm, name);
    if e.Run? && TouchesVm(s.threads[e.t].stage) {
      VmStep(s, e.t, e.choice, vm, name, Next(s, e));
    } else if e.Run? {
      QuietStep(s, e.t, e.choice, vm, name);
    } else {
      PresentStep(s, Next(s, e), e.t, vm);
    }
    Carry(s, Next(s, e), e.t, vm, name);
  }

  lemma {:induction false} RunKeepsInv(s: System, es: seq<Event>, vm: string, name: string)
    requires Inv(s, vm, name) && IsRun(s, es) && NameFixed(es, vm, name)
    ensures Inv(After(s, es), vm, name)
    decreases |es|
  {
    if es != [] {
      assert es[0] in es && forall e :: e in es[1..] ==> e in es;
      StepKeepsInv(s, es[0], vm, name);
      RunKeepsInv(Next(s, es[0]), es[1..], vm, name);
    }
  }

  /** In every run in which no call presents resource `vm` under a second VM name,
      its successful launches exceed its successful removals by at most one. */
  lemma AtMostOneVm(s: System, es: seq<Event>, vm: string, name: string)
    requires Init(s) && IsRun(s, es) && NameFixed(es, vm, name)
    ensures var h := After(s, es).history; Count(h.launches, vm) <= 1 + Count(h.removals, vm)
  {
    assert Forgetters(s, vm) == {};
    RunKeepsInv(s, es, vm, name);
  }
}
