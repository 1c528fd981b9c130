/** How long a lease can hold a resource when lease requests pass a TTL bound. */
module TtlRuns {
  import opened FabricTypes
  import opened FabricState
  import opened Rpc
  import FabricRuns
  import Spec = FabricSpec

  /** An RPC request that reached the agent, and what surrounded it. */
  datatype Beat = Beat(request: RpcRequest, around: Surroundings)

  /** A fabric, and the instant each lease id was granted at. */
  datatype Track = Track(fabric: FabricState, grantedAt: map<nat, nat>)

  function Step(auth: AuthProvider, t: Track, beat: Beat, binary: string): Track {
    var m := Waited(t.fabric, beat.around.ticks);
    var (response, m') := Answer(auth, m, beat.request, beat.around.host, binary);
    Track(m', if beat.request.LeaseExclusive? && response.Leased? then t.grantedAt[response.lease.id := m.now]
              else t.grantedAt)
  }

  /** A run of RPC requests from a fabric on which nothing is leased. */
  function Play(auth: AuthProvider, start: FabricState, beats: seq<Beat>, binary: string): Track {
    if beats == [] then Track(start, map[])
    else Step(auth, Play(auth, start, beats[..|beats| - 1], binary), beats[|beats| - 1], binary)
  }

  /** The entry was granted, and lapses between `min` and `max` after that. */
  predicate Bounded(auth: AuthProvider, active: ActiveLease, grantedAt: map<nat, nat>)
    requires auth.TtlBound?
  {
    active.lease.id in grantedAt && Inside(auth, active.expiresAt, grantedAt[active.lease.id])
  }

  predicate Inside(auth: AuthProvider, deadline: nat, grantedAt: nat)
    requires auth.TtlBound?
  {
    grantedAt + auth.min <= deadline <= grantedAt + auth.max
  }

  ghost predicate AllBounded(auth: AuthProvider, leases: map<string, ActiveLease>, grantedAt: map<nat, nat>, next: nat)
    requires auth.TtlBound?
  {
    && (forall rid {:trigger Bounded(auth, leases[rid], grantedAt)} ::
          rid in leases ==> Bounded(auth, leases[rid], grantedAt))
    && (forall id :: id in grantedAt ==> id <= next)
  }

  lemma FewerBounded(auth: AuthProvider, leases: map<string, ActiveLease>, leases': map<string, ActiveLease>,
                     grantedAt: map<nat, nat>, next: nat)
    requires auth.TtlBound? && AllBounded(auth, leases, grantedAt, next)
    requires forall rid :: rid in leases' ==> rid in leases && leases'[rid] == leases[rid]
    ensures AllBounded(auth, leases', grantedAt, next)
  {
    forall rid | rid in leases' ensures Bounded(auth, leases'[rid], grantedAt) {
      assert Bounded(auth, leases[rid], grantedAt);
    }
  }

  lemma OneMoreBounded(auth: AuthProvider, leases: map<string, ActiveLease>, grantedAt: map<nat, nat>, next: nat,
                       rid: string, active: ActiveLease, now: nat)
    requires auth.TtlBound? && AllBounded(auth, leases, grantedAt, next)
    requires active.lease.id == next + 1 && now + auth.min <= active.expiresAt <= now + auth.max
    ensures AllBounded(auth, leases[rid := active], grantedAt[next + 1 := now], next + 1)
  {
    var leases' := leases[rid := active];
    var grantedAt' := grantedAt[next + 1 := now];
    forall r | r in leases' ensures Bounded(auth, leases'[r], grantedAt') {
      if r != rid {
        assert Bounded(auth, leases[r], grantedAt);
      }
    }
  }

  lemma LeaseStaysBounded(auth: AuthProvider, m: FabricState, grantedAt: map<nat, nat>, rid: string, owner: string,
                          ttl: nat, answer: Result<Lease, FabricError>, m': FabricState)
    requires auth.TtlBound? && AllBounded(auth, m.leases, grantedAt, m.nextLeaseId)
    requires auth.min <= ttl <= auth.max && (answer, m') == Spec.LeaseExclusive(m, rid, owner, ttl)
    ensures AllBounded(auth, m'.leases, if answer.Ok? then grantedAt[answer.value.id := m.now] else grantedAt,
                       m'.nextLeaseId)
  {
    var pruned := Spec.Prune(m).leases;
    FewerBounded(auth, m.leases, pruned, grantedAt, m.nextLeaseId);
    if answer.Ok? {
      OneMoreBounded(auth, pruned, grantedAt, m.nextLeaseId, rid, ActiveLease(answer.value, m.now + ttl), m.now);
    }
  }

  lemma DispatchKeepsLeases(m: FabricState, request: RpcRequest, host: Host, binary: string, m': FabricState)
    requires !request.LeaseExclusive? && !request.LeaseRenew?
    requires m' == Dispatch(m, request, host, binary).1
    ensures m'.nextLeaseId == m.nextLeaseId
    ensures forall rid :: rid in m'.leases ==> rid in m.leases && m'.leases[rid] == m.leases[rid]
  {
    match request
    case Attach(adapter, lease) => FabricRuns.AttachKeepsTables(m, adapter, lease, host, binary, m');
    case _ =>
  }

  lemma StepStaysBounded(auth: AuthProvider, t: Track, beat: Beat, binary: string, t': Track)
    requires auth.TtlBound? && AllBounded(auth, t.fabric.leases, t.grantedAt, t.fabric.nextLeaseId)
    requires !beat.request.LeaseRenew? && t' == Step(auth, t, beat, binary)
    ensures AllBounded(auth, t'.fabric.leases, t'.grantedAt, t'.fabric.nextLeaseId)
  {
    var m := Waited(t.fabric, beat.around.ticks);
    if Authorize(auth, beat.request).Ok? {
      if beat.request.LeaseExclusive? {
        var ttl := beat.request.ttlSecs * SECOND;
        var (answer, m') := Spec.LeaseExclusive(m, beat.request.resourceId, beat.request.owner, ttl);
        LeaseStaysBounded(auth, m, t.grantedAt, beat.request.resourceId, beat.request.owner, ttl, answer, m');
      } else {
        DispatchKeepsLeases(m, beat.request, beat.around.host, binary, t'.fabric);
        FewerBounded(auth, m.leases, t'.fabric.leases, t.grantedAt, m.nextLeaseId);
      }
    }
  }

  // ------------------------------------------------------------- renewals

  /** A renewal that finds its lease asks for a deadline within the bound of its grant;
      what the controller that was granted the lease can work out before it asks. */
  predicate RenewsInside(auth: AuthProvider, t: Track, beat: Beat)
    requires auth.TtlBound?
  {
    var m := Waited(t.fabric, beat.around.ticks);
    beat.request.LeaseRenew? ==>
      var lease := beat.request.toRenew;
      Matches(m, lease) && m.leases[lease.resourceId].expiresAt > m.now && lease.id in t.grantedAt ==>
        Inside(auth, m.now + beat.request.ttlSecs * SECOND, t.grantedAt[lease.id])
  }

  lemma RenewalStaysBoundedIff(auth: AuthProvider, m: FabricState, grantedAt: map<nat, nat>, lease: Lease, ttl: nat,
                               m': FabricState)
    requires auth.TtlBound? && AllBounded(auth, m.leases, grantedAt, m.nextLeaseId)
    requires m' == Spec.RenewLease(m, lease, ttl).1
    ensures AllBounded(auth, m'.leases, grantedAt, m'.nextLeaseId) <==>
              (Matches(m, lease) && m.leases[lease.resourceId].expiresAt > m.now ==>
                 lease.id in grantedAt && Inside(auth, m.now + ttl, grantedAt[lease.id]))
  {
    var pruned := Spec.Prune(m).leases;
    FewerBounded(auth, m.leases, pruned, grantedAt, m.nextLeaseId);
    if Matches(m, lease) && m.leases[lease.resourceId].expiresAt > m.now {
      var rid := lease.resourceId;
      assert m'.leases == pruned[rid := pruned[rid].(expiresAt := m.now + ttl)];
      assert Bounded(auth, m'.leases[rid], grantedAt)
        <==> lease.id in grantedAt && Inside(auth, m.now + ttl, grantedAt[lease.id]);
      forall other | other in m'.leases && other != rid
        ensures Bounded(auth, m'.leases[other], grantedAt)
      {
        assert Bounded(auth, pruned[other], grantedAt);
      }
    }
  }

  /** A step keeps the table within the bound exactly when it is no renewal, or one that
      stays inside. */
  lemma StepStaysBoundedIff(auth: AuthProvider, t: Track, beat: Beat, binary: string, t': Track)
    requires auth.TtlBound? && AllBounded(auth, t.fabric.leases, t.grantedAt, t.fabric.nextLeaseId)
    requires t' == Step(auth, t, beat, binary)
    ensures AllBounded(auth, t'.fabric.leases, t'.grantedAt, t'.fabric.nextLeaseId) <==> RenewsInside(auth, t, beat)
  {
    if beat.request.LeaseRenew? {
      var m, lease := Waited(t.fabric, beat.around.ticks), beat.request.toRenew;
      assert lease.resourceId in m.leases ==> Bounded(auth, m.leases[lease.resourceId], t.grantedAt);
      RenewalStaysBoundedIff(auth, m, t.grantedAt, lease, beat.request.ttlSecs * SECOND, t'.fabric);
    } else {
      StepStaysBounded(auth, t, beat, binary, t');
    }
  }

  /** Every table entry of every state of the run lapses within the bound of its grant. */
  ghost predicate AlwaysBounded(auth: AuthProvider, start: FabricState, beats: seq<Beat>, binary: string)
    requires auth.TtlBound?
  {
    var t := Play(auth, start, beats, binary);
    && AllBounded(auth, t.fabric.leases, t.grantedAt, t.fabric.nextLeaseId)
    && (beats != [] ==> AlwaysBounded(auth, start, beats[..|beats| - 1], binary))
  }

  predicate AllRenewInside(auth: AuthProvider, start: FabricState, beats: seq<Beat>, binary: string)
    requires auth.TtlBound?
  {
    beats != [] ==>
      var n := |beats| - 1;
      && AllRenewInside(auth, start, beats[..n], binary)
      && RenewsInside(auth, Play(auth, start, beats[..n], binary), beats[n])
  }

  /** Under a TTL bound the entries of a run always lapse between `min` and `max` after
      their grant if and only if every renewal that finds its lease stays inside. */
  lemma {:induction false} BoundedIffRenewalsInside(auth: AuthProvider, start: FabricState, beats: seq<Beat>,
                                                    binary: string)
    requires auth.TtlBound? && start.leases == map[]
    ensures AlwaysBounded(auth, start, beats, binary) <==> AllRenewInside(auth, start, beats, binary)
    decreases |beats|
  {
    if beats != [] {
      var n := |beats| - 1;
      BoundedIffRenewalsInside(auth, start, beats[..n], binary);
      if AlwaysBounded(auth, start, beats[..n], binary) {
        StepStaysBoundedIff(auth, Play(auth, start, beats[..n], binary), beats[n], binary,
                            Play(auth, start, beats, binary));
      }
    }
  }

  predicate NoRenewal(beats: seq<Beat>) {
    forall b :: b in beats ==> !b.request.LeaseRenew?
  }

  lemma {:induction false} NoRenewalIsInside(auth: AuthProvider, start: FabricState, beats: seq<Beat>, binary: string)
    requires auth.TtlBound? && NoRenewal(beats)
    ensures AllRenewInside(auth, start, beats, binary)
    decreases |beats|
  {
    if beats != [] {
      var n := |beats| - 1;
      assert beats[n] in beats && forall b :: b in beats[..n] ==> b in beats;
      NoRenewalIsInside(auth, start, beats[..n], binary);
    }
  }

  /** So it is in every run without renewals. */
  lemma EntriesAreBounded(auth: AuthProvider, start: FabricState, beats: seq<Beat>, binary: string)
    requires auth.TtlBound? && start.leases == map[] && NoRenewal(beats)
    ensures AlwaysBounded(auth, start, beats, binary)
  {
    NoRenewalIsInside(auth, start, beats, binary);
    BoundedIffRenewalsInside(auth, start, beats, binary);
  }

  /** After any run whose renewals stay inside, an entry blocks another lease of its
      resource until `min` has passed since its grant, and no longer once `max` has. */
  lemma BlocksNoLongerThanMax(auth: AuthProvider, start: FabricState, beats: seq<Beat>, binary: string,
                              rid: string, ticks: nat, owner: string, ttl: nat)
    requires auth.TtlBound? && start.leases == map[] && AllRenewInside(auth, start, beats, binary)
    requires var t := Play(auth, start, beats, binary);
             && rid in t.fabric.leases && rid in t.fabric.resources
             && t.fabric.resources[rid].state == Available && t.fabric.resources[rid].exclusive
    ensures var t := Play(auth, start, beats, binary);
            var m := Waited(t.fabric, ticks);
            var id := t.fabric.leases[rid].lease.id;
            var answer := Spec.LeaseExclusive(m, rid, owner, ttl).0;
            && id in t.grantedAt
            && (m.now >= t.grantedAt[id] + auth.max ==> answer.Ok?)
            && (m.now < t.grantedAt[id] + auth.min ==> answer == Err(ResourceAlreadyLeased))
  {
    BoundedIffRenewalsInside(auth, start, beats, binary);
    var t := Play(auth, start, beats, binary);
    assert Bounded(auth, t.fabric.leases[rid], t.grantedAt);
  }

  /** Renewals are not checked: whatever the maximum, one beyond it is let through and
      keeps the resource leased after the maximum has passed. */
  lemma RenewalEscapesTheBound(auth: AuthProvider, m: FabricState, lease: Lease, ttlSecs: nat, host: Host,
                               binary: string)
    requires auth.TtlBound? && Matches(m, lease) && m.leases[lease.resourceId].expiresAt > m.now
    requires ttlSecs * SECOND > auth.max
    ensures var (response, m') := Answer(auth, m, LeaseRenew(lease, ttlSecs), host, binary);
            response.Leased? && Matches(m', lease) && m'.leases[lease.resourceId].expiresAt > m.now + auth.max
  {
  }
}
