/** When a leased resource can leave the registry: `unregister` gives up the lease
    lock between its check and its removal. */
module Orphans {
  import opened FabricTypes
  import opened FabricState
  import opened Interleaving
  import Spec = FabricSpec

  predicate NoOrphan(m: FabricState) {
    m.leases.Keys <= m.resources.Keys
  }

  // ------------------------------------------------------------- the failure

  /** The clock stands still and a prune drops just what has lapsed. */
  function Still(m: FabricState): Choice {
    Choice(m.now, m.now, Spec.Alive(m.leases, m.now), Host(true, true, true, true, true, true, true, true), [])
  }

  /** Threads `t` and `u` are where they are said to be; every other one is idle. */
  predicate Only(s: System, t: nat, u: nat, at: Thread, other: Thread) {
    && t != u && t in s.threads && u in s.threads
    && s.threads[t] == at && s.threads[u] == other
    && forall w :: w in s.threads && w != t && w != u ==> s.threads[w].Idle?
  }

  ghost predicate Reaches(s: System, es: seq<Event>, end: System) {
    IsRun(s, es) && After(s, es) == end
  }

  lemma EventThen(s: System, e: Event, es: seq<Event>, end: System)
    requires Possible(s, e) && Reaches(Next(s, e), es, end)
    ensures Reaches(s, [e] + es, end)
  {
    assert ([e] + es)[1..] == es;
  }

  lemma MayRun(s: System, t: nat, u: nat, st: Stage, other: Thread)
    requires Only(s, t, u, At(st, true), other) && Walked(st, s.shared) == {}
    ensures Possible(s, Run(t, Still(s.shared)))
  {
    assert Enumerates([], {});
  }

  lemma MayEnter(s: System, t: nat, u: nat, st: Stage, other: Thread)
    requires Only(s, t, u, At(st, false), other) && Needs(st).Some? && Held(other) == {}
    ensures Possible(s, Enter(t))
  {
  }

  /** The state after thread `t` has taken its lock and run its section. */
  ghost predicate Ran(s: System, t: nat, s': System) {
    && Possible(s, Enter(t)) && Possible(Next(s, Enter(t)), Run(t, Still(s.shared)))
    && s' == Next(Next(s, Enter(t)), Run(t, Still(s.shared)))
  }

  /** Thread `t` runs one section of a call while `u` holds no lock. */
  lemma Section(s: System, t: nat, u: nat, st: Stage, other: Thread, x: Effect) returns (s': System)
    requires Only(s, t, u, At(st, false), other) && Needs(st).Some? && Held(other) == {}
    requires Walked(st, s.shared) == {} && x == Exec(st, s.shared, Still(s.shared))
    ensures Ran(s, t, s') && Only(s', t, u, x.next, other) && s'.shared == x.shared.(now := s.shared.now)
  {
    MayEnter(s, t, u, st, other);
    var inside := Next(s, Enter(t));
    MayRun(inside, t, u, st, other);
    s' := Next(inside, Run(t, Still(s.shared)));
  }

  lemma SectionThen(s: System, t: nat, s': System, es: seq<Event>, end: System) returns (all: seq<Event>)
    requires Ran(s, t, s') && Reaches(s', es, end)
    ensures Reaches(s, all, end)
  {
    var c := Still(s.shared);
    EventThen(Next(s, Enter(t)), Run(t, c), es, end);
    EventThen(s, Enter(t), [Run(t, c)] + es, end);
    all := [Enter(t)] + ([Run(t, c)] + es);
  }

  /** Thread `t` was told its resource is gone, `u` that it holds a lease of it. */
  predicate Orphaned(s: System, t: nat, u: nat, rid: string) {
    && t in s.threads && u in s.threads
    && s.threads[t] == Idle(Unregistered(true))
    && rid !in s.shared.resources && rid in s.shared.leases
    && s.threads[u] == Idle(Leased(s.shared.leases[rid].lease)) && s.shared.leases[rid].expiresAt > s.shared.now
  }

  lemma RemovedLast(s: System, t: nat, u: nat, rid: string) returns (es: seq<Event>, end: System)
    requires rid in s.shared.leases && rid in s.shared.resources && s.shared.leases[rid].expiresAt > s.shared.now
    requires Only(s, t, u, Goto(UnregisterRemove(rid, [])), Idle(Leased(s.shared.leases[rid].lease)))
    ensures Reaches(s, es, end) && Orphaned(end, t, u, rid)
  {
    var st := UnregisterRemove(rid, []);
    var x := Effect(Idle(Unregistered(true)), s.shared.(resources := s.shared.resources - {rid}), Quiet);
    assert x == Exec(st, s.shared, Still(s.shared));
    end := Section(s, t, u, st, s.threads[u], x);
    es := SectionThen(s, t, end, [], end);
  }

  predicate IsFree(m: FabricState, rid: string) {
    && rid in m.resources && m.resources[rid].state == Available && m.resources[rid].exclusive
    && rid !in m.leases
  }

  lemma LeasedMeanwhile(s: System, t: nat, u: nat, rid: string, owner: string, ttl: nat)
    returns (es: seq<Event>, end: System)
    requires IsFree(s.shared, rid) && ttl > 0
    requires Only(s, u, t, Goto(LeaseGrant(rid, owner, ttl)), Goto(UnregisterRemove(rid, [])))
    ensures Reaches(s, es, end) && Orphaned(end, t, u, rid)
  {
    var st := LeaseGrant(rid, owner, ttl);
    var x := Exec(st, s.shared, Still(s.shared));
    var s' := Section(s, u, t, st, s.threads[t], x);
    es, end := RemovedLast(s', t, u, rid);
    es := SectionThen(s, u, s', es, end);
  }

  lemma LookedUp(s: System, t: nat, u: nat, rid: string, owner: string, ttl: nat) returns (es: seq<Event>, end: System)
    requires IsFree(s.shared, rid) && ttl > 0
    requires Only(s, u, t, Goto(LeaseLookup(rid, owner, ttl)), Goto(UnregisterRemove(rid, [])))
    ensures Reaches(s, es, end) && Orphaned(end, t, u, rid)
  {
    var st := LeaseLookup(rid, owner, ttl);
    var x := Effect(Goto(LeaseGrant(rid, owner, ttl)), s.shared, Quiet);
    assert x == Exec(st, s.shared, Still(s.shared));
    var s' := Section(s, u, t, st, s.threads[t], x);
    es, end := LeasedMeanwhile(s', t, u, rid, owner, ttl);
    es := SectionThen(s, u, s', es, end);
  }

  lemma CheckedFirst(s: System, t: nat, u: nat, rid: string, owner: string, ttl: nat)
    returns (es: seq<Event>, end: System)
    requires IsFree(s.shared, rid) && ttl > 0
    requires u in s.threads && s.threads[u].Idle? && Only(s, t, u, Goto(UnregisterCheck(rid, [])), s.threads[u])
    ensures Reaches(s, es, end) && Orphaned(end, t, u, rid)
  {
    var st := UnregisterCheck(rid, []);
    var x := Effect(Goto(UnregisterRemove(rid, [])), s.shared, Quiet);
    assert x == Exec(st, s.shared, Still(s.shared));
    var s' := Section(s, t, u, st, s.threads[u], x);
    var begin := Begin(u, LeaseLookup(rid, owner, ttl));
    es, end := LookedUp(Next(s', begin), t, u, rid, owner, ttl);
    EventThen(s', begin, es, end);
    es := SectionThen(s, t, s', [begin] + es, end);
  }

  /** The documentation's promise that a lease is never orphaned fails at lock
      granularity: from any state in which a resource is free, an unregistration and a
      lease that overlap can both succeed, and leave a standing lease on a resource
      that is gone. */
  lemma UnregisterRacesLease(s: System, t: nat, u: nat, rid: string, owner: string, ttl: nat)
    returns (es: seq<Event>, end: System)
    requires t != u && t in s.threads && u in s.threads && forall w :: w in s.threads ==> s.threads[w].Idle?
    requires IsFree(s.shared, rid) && ttl > 0
    ensures Reaches(s, es, end) && Orphaned(end, t, u, rid)
  {
    var begin := Begin(t, UnregisterCheck(rid, []));
    es, end := CheckedFirst(Next(s, begin), t, u, rid, owner, ttl);
    EventThen(s, begin, es, end);
    es := [begin] + es;
  }

  // ----------------------------------------------------------- the condition

  /** The thread has passed the lease check of `rid` and is about to remove it. */
  predicate Removing(th: Thread, rid: string) {
    th.At? && th.stage.UnregisterRemove? && th.stage.id == rid
  }

  /** The event grants no lease of a resource that is being removed, or is gone. */
  ghost predicate Unraced(s: System, e: Event) {
    e.Run? && e.t in s.threads && s.threads[e.t].At? && s.threads[e.t].stage.LeaseGrant? ==>
      var rid := s.threads[e.t].stage.resourceId;
      rid in s.shared.resources && forall w :: w in s.threads ==> !Removing(s.threads[w], rid)
  }

  ghost predicate UnracedRun(s: System, es: seq<Event>)
    requires IsRun(s, es)
    decreases |es|
  {
    es == [] || (Unraced(s, es[0]) && UnracedRun(Next(s, es[0]), es[1..]))
  }

  ghost predicate Inv(s: System) {
    && NoOrphan(s.shared)
    && forall w :: w in s.threads && s.threads[w].At? && s.threads[w].stage.UnregisterRemove? ==>
         s.threads[w].stage.id !in s.shared.leases
  }

  /** What a section does to the two tables. */
  lemma TablesChange(st: Stage, m: FabricState, c: Choice, x: Effect)
    requires x == Exec(st, m, c)
    ensures x.shared.leases.Keys <= m.leases.Keys + if st.LeaseGrant? then {st.resourceId} else {}
    ensures if st.UnregisterRemove? then x.shared.resources == m.resources - {st.id}
            else m.resources.Keys <= x.shared.resources.Keys
  {
    if st.LeaseGrant? || st.Renew? || st.ReleaseCommit? {
      LeasesChange(st, m, c, x);
    } else if !OnlyReads(st) {
      RegistryChange(st, m, c, x);
    }
  }

  lemma RegistryChange(st: Stage, m: FabricState, c: Choice, x: Effect)
    requires !OnlyReads(st) && !st.LeaseGrant? && !st.Renew? && !st.ReleaseCommit? && x == Exec(st, m, c)
    ensures x.shared.leases == m.leases
    ensures if st.UnregisterRemove? then x.shared.resources == m.resources - {st.id}
            else m.resources.Keys <= x.shared.resources.Keys
  {
  }

  lemma LeasesChange(st: Stage, m: FabricState, c: Choice, x: Effect)
    requires (st.LeaseGrant? || st.Renew? || st.ReleaseCommit?) && x == Exec(st, m, c)
    ensures x.shared.leases.Keys <= m.leases.Keys + if st.LeaseGrant? then {st.resourceId} else {}
    ensures x.shared.resources == m.resources
  {
  }

  lemma RemovalsAreChecked(st: Stage, m: FabricState, c: Choice, x: Effect)
    requires x == Exec(st, m, c) && x.next.At? && x.next.stage.UnregisterRemove?
    ensures x.next.stage.id !in m.leases && x.shared == m
  {
    if OnlyReads(st) {
      LookRemovals(st, m, c);
    }
  }

  lemma LookRemovals(st: Stage, m: FabricState, c: Choice)
    requires OnlyReads(st) && Look(st, m, c).At? && Look(st, m, c).stage.UnregisterRemove?
    ensures Look(st, m, c).stage.id !in m.leases
  {
  }

  lemma StepKeepsInv(s: System, e: Event)
    requires Inv(s) && Possible(s, e) && Unraced(s, e)
    ensures Inv(Next(s, e))
  {
    if e.Run? {
      var st := s.threads[e.t].stage;
      var x := Exec(st, s.shared, e.choice);
      TablesChange(st, s.shared, e.choice, x);
      if x.next.At? && x.next.stage.UnregisterRemove? {
        RemovalsAreChecked(st, s.shared, e.choice, x);
      }
    }
  }

  /** No lease is orphaned in any state of a run in which no grant overlaps the removal
      of the resource it is for: what callers can see to by keeping the two apart. */
  lemma {:induction false} NoRaceNoOrphan(s: System, es: seq<Event>)
    requires Inv(s) && IsRun(s, es) && UnracedRun(s, es)
    ensures NeverOrphans(s, es) && CleanRun(s, es) && Inv(After(s, es))
    decreases |es|
  {
    if es != [] {
      StepKeepsInv(s, es[0]);
      NoRaceNoOrphan(Next(s, es[0]), es[1..]);
    }
  }

  lemma InitOk(s: System)
    requires Init(s)
    ensures Inv(s)
  {
  }

  // ----------------------------------------------------- the exact condition

  /** What the code tested under one lock still holds under the next: a removal finds
      its resource unleased, and a grant finds its resource registered. */
  predicate Clean(s: System, e: Event) {
    e.Run? && e.t in s.threads && s.threads[e.t].At? ==>
      match s.threads[e.t].stage
      case UnregisterRemove(id, _) => id !in s.shared.leases
      case LeaseGrant(rid, _, _) => rid in s.shared.resources
      case _ => true
  }

  ghost predicate CleanRun(s: System, es: seq<Event>)
    requires IsRun(s, es)
    decreases |es|
  {
    es == [] || (Clean(s, es[0]) && CleanRun(Next(s, es[0]), es[1..]))
  }

  /** No state of the run has a leased resource that is not registered. */
  ghost predicate NeverOrphans(s: System, es: seq<Event>)
    requires IsRun(s, es)
    decreases |es|
  {
    NoOrphan(s.shared) && (es == [] || NeverOrphans(Next(s, es[0]), es[1..]))
  }

  lemma GrantOrphansIffGone(m: FabricState, rid: string, owner: string, ttl: nat, c: Choice)
    requires NoOrphan(m)
    ensures NoOrphan(GrantSection(rid, owner, ttl, m, c).shared) <==> rid in m.resources
  {
    var x := GrantSection(rid, owner, ttl, m, c);
    assert rid !in m.resources ==> rid in x.shared.leases;
  }

  lemma RemovalOrphansIffLeased(m: FabricState, id: string)
    requires NoOrphan(m)
    ensures NoOrphan(m.(resources := m.resources - {id})) <==> id !in m.leases
  {
    var m' := m.(resources := m.resources - {id});
    assert id in m.leases ==> id in m'.leases && id !in m'.resources;
  }

  /** A step of any thread in any state orphans a lease exactly when it is not clean. */
  lemma StepOrphansIffUnclean(s: System, e: Event)
    requires NoOrphan(s.shared) && Possible(s, e)
    ensures NoOrphan(Next(s, e).shared) <==> Clean(s, e)
  {
    if e.Run? {
      var st := s.threads[e.t].stage;
      var x := Exec(st, s.shared, e.choice);
      match st
      case LeaseGrant(rid, owner, ttl) => GrantOrphansIffGone(s.shared, rid, owner, ttl, e.choice);
      case UnregisterRemove(id, todo) => RemovalOrphansIffLeased(s.shared, id);
      case _ => TablesChange(st, s.shared, e.choice, x);
    }
  }

  /** The documentation's promise holds of a run if and only if each removal in it finds
      its resource still unleased and each grant finds its resource still registered. */
  lemma {:induction false} NeverOrphansIffClean(s: System, es: seq<Event>)
    requires NoOrphan(s.shared) && IsRun(s, es)
    ensures NeverOrphans(s, es) <==> CleanRun(s, es)
    decreases |es|
  {
    if es != [] {
      StepOrphansIffUnclean(s, es[0]);
      if Clean(s, es[0]) {
        NeverOrphansIffClean(Next(s, es[0]), es[1..]);
      }
    }
  }
}
