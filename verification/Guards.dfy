/** Which tests a thread has passed when it grants a lease or records a VM, in every
    interleaving. */
module Guards {
  import opened FabricTypes
  import opened FabricState
  import opened Interleaving
  import FabricAnswers

  // ------------------------------------------------------------ runs, cut up

  /** A run is its first events and one more. */
  lemma {:induction false} LastEvent(s: System, es: seq<Event>, n: nat)
    requires IsRun(s, es) && |es| == n + 1
    ensures IsRun(s, es[..n]) && Possible(After(s, es[..n]), es[n]) && After(s, es) == Next(After(s, es[..n]), es[n])
    decreases n
  {
    if n > 0 {
      LastEvent(Next(s, es[0]), es[1..], n - 1);
      assert es[1..][..n - 1] == es[..n][1..];
    }
  }

  /** At its `k`-th event the run has thread `t` run the section of `st`. */
  ghost predicate RunsAt(s: System, es: seq<Event>, k: nat, t: nat, st: Stage)
    requires IsRun(s, es)
  {
    && k < |es| && es[k].Run? && es[k].t == t
    && IsRun(s, es[..k]) && t in After(s, es[..k]).threads
    && After(s, es[..k]).threads[t].At? && After(s, es[..k]).threads[t].stage == st
  }

  /** The thread has run nothing since its `k`-th event. */
  predicate RunsNothingSince(es: seq<Event>, k: nat, t: nat) {
    forall i :: k < i < |es| && es[i].Run? ==> es[i].t != t
  }

  /** No call begins at these stages: they are entered from another one. */
  predicate Inner(st: Stage) {
    st.LeaseGrant? || st.VmRecord?
  }

  /** A thread at an inner stage came there by running a section that leads to it. */
  lemma {:induction false} CameFrom(s: System, es: seq<Event>, t: nat, st: Stage) returns (k: nat, from: Stage)
    requires Init(s) && IsRun(s, es) && t in After(s, es).threads
    requires After(s, es).threads[t].At? && After(s, es).threads[t].stage == st && Inner(st)
    ensures RunsAt(s, es, k, t, from) && RunsNothingSince(es, k, t)
    ensures Exec(from, After(s, es[..k]).shared, es[k].choice).next == Goto(st)
    decreases |es|
  {
    k, from := 0, st;
    if es != [] {
      var n := |es| - 1;
      LastEvent(s, es, n);
      var before := After(s, es[..n]);
      if es[n].Run? && es[n].t == t {
        k, from := n, before.threads[t].stage;
        NextIsOutside(from, before.shared, es[n].choice);
      } else {
        k, from := CameFrom(s, es[..n], t, st);
        assert es[..n][..k] == es[..k];
      }
    }
  }

  lemma NextIsOutside(st: Stage, m: FabricState, c: Choice)
    ensures Exec(st, m, c).next.At? ==> !Exec(st, m, c).next.inside
  {
    if OnlyReads(st) {
      LookIsOutside(st, m, c);
    }
  }

  lemma LookIsOutside(st: Stage, m: FabricState, c: Choice)
    requires OnlyReads(st)
    ensures Look(st, m, c).At? ==> !Look(st, m, c).inside
  {
  }

  // ------------------------------------------------------------------ leases

  /** The lookup lets a lease through exactly when the resource is registered, available
      and exclusive, and otherwise answers which of these fails. */
  lemma LookupDecides(rid: string, owner: string, ttl: nat, m: FabricState, c: Choice)
    ensures var x := Exec(LeaseLookup(rid, owner, ttl), m, c);
            && x.shared == m && x.note == Quiet
            && x.next == if rid !in m.resources then Idle(Failed(ResourceNotFound))
                         else if m.resources[rid].state == Available && m.resources[rid].exclusive
                         then Goto(LeaseGrant(rid, owner, ttl))
                         else Idle(Failed(ResourceUnavailable))
  {
  }

  lemma OnlyLookupGrants(st: Stage, m: FabricState, c: Choice, rid: string, owner: string, ttl: nat)
    requires Exec(st, m, c).next == Goto(LeaseGrant(rid, owner, ttl))
    ensures st == LeaseLookup(rid, owner, ttl)
  {
    if OnlyReads(st) {
      OnlyLookupLooks(st, m, c, rid, owner, ttl);
    }
  }

  lemma OnlyLookupLooks(st: Stage, m: FabricState, c: Choice, rid: string, owner: string, ttl: nat)
    requires OnlyReads(st) && Look(st, m, c) == Goto(LeaseGrant(rid, owner, ttl))
    ensures st == LeaseLookup(rid, owner, ttl)
  {
  }

  /** In every interleaving a thread about to grant a lease looked the resource up in this
      very call, and found it registered, available and exclusive. */
  lemma GrantFollowsAFreeLookup(s: System, es: seq<Event>, t: nat, rid: string, owner: string, ttl: nat)
    returns (k: nat)
    requires Init(s) && IsRun(s, es) && t in After(s, es).threads && After(s, es).threads[t].At?
    requires After(s, es).threads[t].stage == LeaseGrant(rid, owner, ttl)
    ensures RunsAt(s, es, k, t, LeaseLookup(rid, owner, ttl)) && RunsNothingSince(es, k, t)
    ensures var m := After(s, es[..k]).shared;
            rid in m.resources && m.resources[rid].state == Available && m.resources[rid].exclusive
  {
    var from: Stage;
    k, from := CameFrom(s, es, t, LeaseGrant(rid, owner, ttl));
    OnlyLookupGrants(from, After(s, es[..k]).shared, es[k].choice, rid, owner, ttl);
    LookupDecides(rid, owner, ttl, After(s, es[..k]).shared, es[k].choice);
  }

  // --------------------------------------------------------------------- VMs

  /** A launch is on the books exactly when the VM starts, and only then does the thread
      go on to record it. */
  lemma LaunchDecides(adapter: string, lease: Lease, r: Resource, m: FabricState, c: Choice)
    ensures var x := Exec(VmLaunch(adapter, lease, r), m, c);
            && x.shared == m
            && (x.note == Launched(r.id) <==> FabricAnswers.Starts(r, c.host))
            && (x.note == Quiet <==> !FabricAnswers.Starts(r, c.host))
            && (x.next == Goto(VmRecord(adapter, lease, r)) <==> FabricAnswers.Starts(r, c.host))
            && (x.next.Idle? <==> !FabricAnswers.Starts(r, c.host))
  {
  }

  /** A VM is neither probed nor launched when it is known, and not launched when it runs. */
  lemma CheckAndProbeDecide(adapter: string, lease: Lease, r: Resource, m: FabricState, c: Choice)
    ensures Exec(VmCheck(adapter, lease, r), m, c).next
         == if FabricAnswers.Known(m.managed, r) then Goto(AttachRecord(adapter, lease))
            else Goto(VmProbe(adapter, lease, r))
    ensures Exec(VmProbe(adapter, lease, r), m, c).next
         == if c.host.running then Goto(VmRecord(adapter, lease, r)) else Goto(VmLaunch(adapter, lease, r))
  {
  }

  /** A removal is on the books exactly when the launcher reports it, and only then is the
      VM forgotten. */
  lemma RemovalDecides(vm: string, rest: seq<string>, m: FabricState, c: Choice)
    ensures var x := Exec(ReconcileRemove(vm, rest), m, c);
            && x.shared == m
            && (x.note == Removed(vm) <==> c.host.removed) && (x.note == Quiet <==> !c.host.removed)
            && (c.host.removed ==> x.next == Goto(ReconcileForget(vm, rest)))
    ensures Exec(ReconcileForget(vm, rest), m, c).shared == m.(managed := m.managed - {vm})
  {
  }

  lemma OnlyProbeAndLaunchRecord(st: Stage, m: FabricState, c: Choice, adapter: string, lease: Lease, r: Resource)
    requires Exec(st, m, c).next == Goto(VmRecord(adapter, lease, r))
    ensures st == VmProbe(adapter, lease, r) || st == VmLaunch(adapter, lease, r)
  {
    if OnlyReads(st) {
      OnlyProbeLooks(st, m, c, adapter, lease, r);
    }
  }

  lemma OnlyProbeLooks(st: Stage, m: FabricState, c: Choice, adapter: string, lease: Lease, r: Resource)
    requires OnlyReads(st) && Look(st, m, c) == Goto(VmRecord(adapter, lease, r))
    ensures st == VmProbe(adapter, lease, r)
  {
  }

  /** In every interleaving a thread about to record a VM launched that VM in this very
      call, or found it running when it probed. */
  lemma RecordFollowsALaunchOrAProbe(s: System, es: seq<Event>, t: nat, adapter: string, lease: Lease, r: Resource)
    returns (k: nat)
    requires Init(s) && IsRun(s, es) && t in After(s, es).threads && After(s, es).threads[t].At?
    requires After(s, es).threads[t].stage == VmRecord(adapter, lease, r)
    ensures k < |es| && es[k].Run? && RunsNothingSince(es, k, t)
    ensures || (RunsAt(s, es, k, t, VmProbe(adapter, lease, r)) && es[k].choice.host.running)
            || (&& RunsAt(s, es, k, t, VmLaunch(adapter, lease, r)) && FabricAnswers.Starts(r, es[k].choice.host)
                && Count(Next(After(s, es[..k]), es[k]).history.launches, r.id)
                   == Count(After(s, es[..k]).history.launches, r.id) + 1)
  {
    var from: Stage;
    k, from := CameFrom(s, es, t, VmRecord(adapter, lease, r));
    var m, c := After(s, es[..k]).shared, es[k].choice;
    OnlyProbeAndLaunchRecord(from, m, c, adapter, lease, r);
    LaunchDecides(adapter, lease, r, m, c);
    CheckAndProbeDecide(adapter, lease, r, m, c);
  }
}
