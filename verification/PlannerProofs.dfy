/** What a plan fragment means, and what it does not depend on. */
module PlannerProofs {
  import opened FabricTypes
  import opened Planner
  import Order

  // --------------------------------------------------------------- one host

  /** A slot takes a role when it is healthy and lists it, or lists no roles and has a
      model. */
  lemma ServesExactly(s: SlotView, role: string)
    ensures Serves(s, role) <==>
              s.healthy && (role in s.roles || (|s.roles| == 0 && |s.modelId| > 0))
  {
  }

  /** A round trip is known exactly when the matrix has a measured entry for the pair. */
  lemma RttIsTheEntry(m: LatencyMatrix, from: string, to: string, ms: real)
    ensures RttMs(m, from, to) == Some(ms) <==> from in m && to in m[from] && m[from][to] == Some(ms)
  {
  }

  /** Slot `i` serves, no serving slot has more headroom, and later ones have less. */
  ghost predicate IsLastBest(slots: seq<SlotView>, role: string, i: nat) {
    && i < |slots| && Serves(slots[i], role)
    && forall j :: 0 <= j < |slots| && Serves(slots[j], role) ==>
         slots[j].freeMb < slots[i].freeMb || (slots[j].freeMb == slots[i].freeMb && j <= i)
  }

  ghost predicate SomeServes(slots: seq<SlotView>, role: string) {
    exists s :: s in slots && Serves(s, role)
  }

  lemma {:induction false} FoundIffSomeServes(slots: seq<SlotView>, role: string, rttMs: Option<real>)
    ensures LastBest(slots, role, rttMs).Some? <==> SomeServes(slots, role)
    decreases |slots|
  {
    if slots != [] {
      var n := |slots| - 1;
      FoundIffSomeServes(slots[..n], role, rttMs);
      assert forall s :: s in slots <==> s in slots[..n] || s == slots[n];
    }
  }

  /** The slot chosen on a host has at least the headroom of every serving slot, and of
      the equals it is the last, whatever the round trip to the host. */
  lemma {:induction false} LastBestIsLastBest(slots: seq<SlotView>, role: string, rttMs: Option<real>) returns (i: nat)
    requires LastBest(slots, role, rttMs).Some?
    ensures IsLastBest(slots, role, i) && LastBest(slots, role, rttMs).value == slots[i]
    decreases |slots|
  {
    var n := |slots| - 1;
    var init := LastBest(slots[..n], role, rttMs);
    assert forall j :: 0 <= j < n ==> slots[..n][j] == slots[j];
    if init.None? {
      FoundIffSomeServes(slots[..n], role, rttMs);
      assert forall j :: 0 <= j < n ==> slots[j] in slots[..n];
      i := n;
    } else {
      i := LastBestIsLastBest(slots[..n], role, rttMs);
      if Serves(slots[n], role) && init.value.freeMb <= slots[n].freeMb {
        i := n;
      }
    }
  }

  /** The round trip shifts every slot of a host alike, so it never changes which
      slot of the host is offered. */
  lemma {:induction false} LatencyNeverChoosesTheSlot(slots: seq<SlotView>, role: string, rttMs: Option<real>)
    ensures LastBest(slots, role, rttMs) == LastBest(slots, role, None)
    decreases |slots|
  {
    if slots != [] {
      LatencyNeverChoosesTheSlot(slots[..|slots| - 1], role, rttMs);
    }
  }

  /** Slots that do not serve the role do not count. */
  lemma {:induction false} NonServingSlotIsInvisible(before: seq<SlotView>, s: SlotView, after: seq<SlotView>,
                                                     role: string, rttMs: Option<real>)
    requires !Serves(s, role)
    ensures LastBest(before + [s] + after, role, rttMs) == LastBest(before + after, role, rttMs)
    decreases |after|
  {
    if after == [] {
      assert (before + [s] + after)[..|before|] == before == before + after;
    } else {
      var n := |after| - 1;
      assert (before + [s] + after)[..|before| + 1 + n] == before + [s] + after[..n];
      assert (before + after)[..|before| + n] == before + after[..n];
      NonServingSlotIsInvisible(before, s, after[..n], role, rttMs);
    }
  }

  // ---------------------------------------------------------------- the fleet

  /** The winner: some host offers it, and every other offer scores lower, or the
      same on a host with a greater key. */
  ghost predicate IsWinner(ask: PlanRequest, view: FleetView, keys: seq<string>, c: Candidate) {
    && c.hostKey in keys && Offer(ask, view, c.hostKey) == Some(c)
    && forall h :: h in keys && Offer(ask, view, h).Some? && h != c.hostKey ==>
         var other := Offer(ask, view, h).value;
         other.score < c.score || (other.score == c.score && Order.Less(c.hostKey, h))
  }

  lemma {:induction false} FirstBestIsWinner(ask: PlanRequest, view: FleetView, keys: seq<string>)
    requires Order.Ascending(keys)
    ensures match FirstBest(ask, view, keys)
            case None => forall h :: h in keys ==> Offer(ask, view, h).None?
            case Some(c) => IsWinner(ask, view, keys, c)
    decreases |keys|
  {
    if keys != [] {
      var n := |keys| - 1;
      FirstBestIsWinner(ask, view, keys[..n]);
      assert forall h :: h in keys <==> h in keys[..n] || h == keys[n];
      assert forall h :: h in keys[..n] ==> Order.Less(h, keys[n]);
      Order.Irreflexive(keys[n]);
    }
  }

  lemma WinnerIsUnique(ask: PlanRequest, view: FleetView, keys: seq<string>, c: Candidate, d: Candidate)
    requires IsWinner(ask, view, keys, c) && IsWinner(ask, view, keys, d)
    ensures c == d
  {
    Order.Trichotomy(c.hostKey, d.hostKey);
  }

  /** Host `h`, not the asker's and not locked, has serving slot `j`. */
  predicate Eligible(ask: PlanRequest, view: FleetView, h: string, j: nat) {
    && h in view.hosts && h != ask.nodeId && !view.hosts[h].locked
    && j < |view.hosts[h].slots| && Serves(view.hosts[h].slots[j], ask.role)
  }

  /** What a measured round trip costs: 512 MiB of headroom for every millisecond. An
      unmeasured one costs nothing. */
  function Penalty(ask: PlanRequest, view: FleetView, h: string): real {
    match RttMs(view.latency, ask.nodeId, h)
    case Some(ms) => 512.0 * ms
    case None => 0.0
  }

  /** Headroom less what the round trip costs. */
  function Score(ask: PlanRequest, view: FleetView, h: string, j: nat): real
    requires Eligible(ask, view, h, j)
  {
    view.hosts[h].slots[j].freeMb - Penalty(ask, view, h)
  }

  /** (h, i) beats (g, j): a higher score; or the same on a lesser key; or the same on
      the same host, further back. */
  ghost predicate AtLeast(ask: PlanRequest, view: FleetView, h: string, i: nat, g: string, j: nat)
    requires Eligible(ask, view, h, i) && Eligible(ask, view, g, j)
  {
    || Score(ask, view, g, j) < Score(ask, view, h, i)
    || (Score(ask, view, g, j) == Score(ask, view, h, i) && (Order.Less(h, g) || (h == g && j <= i)))
  }

  lemma OfferIsBestOfHost(ask: PlanRequest, view: FleetView, h: string) returns (i: nat)
    ensures Offer(ask, view, h).Some? <==> exists j: nat :: Eligible(ask, view, h, j)
    ensures Offer(ask, view, h).Some? ==>
      var c := Offer(ask, view, h).value;
      && Eligible(ask, view, h, i) && c.slot == view.hosts[h].slots[i] && c.hostKey == h
      && c.score == Score(ask, view, h, i) && c.rttMs == RttMs(view.latency, ask.nodeId, h)
      && forall j: nat :: Eligible(ask, view, h, j) ==> AtLeast(ask, view, h, i, h, j)
  {
    i := 0;
    if h in view.hosts && h != ask.nodeId && !view.hosts[h].locked {
      var slots := view.hosts[h].slots;
      FoundIffSomeServes(slots, ask.role, RttMs(view.latency, ask.nodeId, h));
      if SomeServes(slots, ask.role) {
        i := LastBestIsLastBest(slots, ask.role, RttMs(view.latency, ask.nodeId, h));
      }
      if s :| s in slots && Serves(s, ask.role) {
        var j: nat :| j < |slots| && slots[j] == s;
        assert Eligible(ask, view, h, j);
      }
      forall j: nat | Eligible(ask, view, h, j) ensures slots[j] in slots && Serves(slots[j], ask.role) {
      }
    }
  }

  /** The fragment names this slot of this host to the asker, with this round trip. */
  predicate Names(f: PlanFragment, ask: PlanRequest, h: string, s: SlotView, rttMs: Option<real>) {
    && f.nodeId == ask.nodeId && f.role == ask.role && f.hostKey == h
    && f.slot == s.slot && f.modelId == s.modelId && f.resourceId == s.resourceId && f.rttMs == rttMs
  }

  /** The reason tells the host, the role, the headroom, and the round trip or its absence. */
  predicate TellsWhy(reason: string, ask: PlanRequest, h: string, s: SlotView, rttMs: Option<real>, text: Text) {
    reason == "fleet-wide: " + h + " has a healthy " + ask.role + " slot (" + text.mib(s.freeMb) + " MiB free, "
              + (if rttMs.Some? then "rtt " + text.rtt(rttMs.value) + " ms" else "rtt not measured") + ")"
  }

  /** The fleet-wide planner answers exactly when some unlocked host other than the
      asker has a serving slot. The host and slot it names have at least the headroom,
      less 512 MiB for each millisecond of round trip, of every eligible pair of the
      fleet, ties going to the least host key and then the last slot. */
  lemma MonolithicIsOptimal(ask: PlanRequest, view: FleetView, text: Text) returns (h: string, i: nat)
    ensures Monolithic(ask, view, text).Some? <==> exists g, j: nat :: Eligible(ask, view, g, j)
    ensures Monolithic(ask, view, text).Some? ==>
      && Eligible(ask, view, h, i)
      && (forall g, j: nat :: Eligible(ask, view, g, j) ==> AtLeast(ask, view, h, i, g, j))
      && var rtt, f := RttMs(view.latency, ask.nodeId, h), Monolithic(ask, view, text).value;
         Names(f, ask, h, view.hosts[h].slots[i], rtt) && TellsWhy(f.reason, ask, h, view.hosts[h].slots[i], rtt, text)
  {
    h, i := "", 0;
    var keys := Order.Sorted(view.hosts.Keys);
    FirstBestIsWinner(ask, view, keys);
    var best := FirstBest(ask, view, keys);
    if best.Some? {
      h := best.value.hostKey;
      i := OfferIsBestOfHost(ask, view, h);
      assert best.value.slot == view.hosts[h].slots[i];
    }
    forall g, j: nat | Eligible(ask, view, g, j)
      ensures best.Some? && AtLeast(ask, view, h, i, g, j)
    {
      var k := OfferIsBestOfHost(ask, view, g);
      assert g in keys && Offer(ask, view, g).Some?;
      assert AtLeast(ask, view, g, k, g, j);
    }
  }

  /** Between two measured links the named host wins only by headroom worth the extra
      time: no eligible slot has more than 512 MiB over it for each millisecond it is
      farther. */
  lemma HeadroomIsWorthTheRoundTrip(ask: PlanRequest, view: FleetView, text: Text, g: string, j: nat)
    returns (h: string, i: nat)
    requires Eligible(ask, view, g, j)
    ensures Monolithic(ask, view, text).Some? && Eligible(ask, view, h, i)
    ensures Names(Monolithic(ask, view, text).value, ask, h, view.hosts[h].slots[i], RttMs(view.latency, ask.nodeId, h))
    ensures var f, f' := view.hosts[h].slots[i].freeMb, view.hosts[g].slots[j].freeMb;
            var near, far := RttMs(view.latency, ask.nodeId, h), RttMs(view.latency, ask.nodeId, g);
            var most := if near.Some? && far.Some? then 512.0 * (far.value - near.value)
                        else if far.Some? then 512.0 * far.value
                        else if near.Some? then -512.0 * near.value
                        else 0.0;
            f' - f < most || (f' - f == most && (Order.Less(h, g) || (h == g && j <= i)))
  {
    h, i := MonolithicIsOptimal(ask, view, text);
    assert AtLeast(ask, view, h, i, g, j);
  }

  /** A host is never named when another has a serving slot with as much headroom as any
      of its own, over a shorter measured link. */
  lemma FartherIsNeverNamed(ask: PlanRequest, view: FleetView, text: Text, far: string, near: string, j: nat)
    requires Eligible(ask, view, near, j) && far in view.hosts
    requires RttMs(view.latency, ask.nodeId, near).Some? && RttMs(view.latency, ask.nodeId, far).Some?
    requires RttMs(view.latency, ask.nodeId, near).value < RttMs(view.latency, ask.nodeId, far).value
    requires forall k :: 0 <= k < |view.hosts[far].slots| ==>
               view.hosts[far].slots[k].freeMb <= view.hosts[near].slots[j].freeMb
    ensures Monolithic(ask, view, text).Some? && Monolithic(ask, view, text).value.hostKey != far
  {
    var h, i := HeadroomIsWorthTheRoundTrip(ask, view, text, near, j);
  }

  // ---------------------------------------------------------- the head's order

  /** Some unlocked host, the asker's own included, has a serving slot. */
  ghost predicate Satisfiable(view: FleetView, role: string) {
    exists h :: h in view.hosts && !view.hosts[h].locked && SomeServes(view.hosts[h].slots, role)
  }

  ghost predicate ServedLocally(ask: PlanRequest, view: FleetView) {
    && ask.nodeId in view.hosts && !view.hosts[ask.nodeId].locked
    && SomeServes(view.hosts[ask.nodeId].slots, ask.role)
  }

  lemma LocalIffServed(ask: PlanRequest, view: FleetView)
    ensures BestSlot(view, ask.nodeId, ask.role).Some? <==> ServedLocally(ask, view)
  {
    if ask.nodeId in view.hosts {
      FoundIffSomeServes(view.hosts[ask.nodeId].slots, ask.role, None);
    }
  }

  /** For a valid ask the head refuses exactly when no unlocked host has a serving
      slot, and then with a typed escalation; the answer names the asker exactly
      when the asker itself can serve; and a reported round trip is the matrix's
      entry for that pair. Asking by kind gives the same answer. */
  lemma HeadPlanDecides(ask: PlanRequest, view: FleetView, roles: seq<string>, text: Text)
    requires ValidateAsk(ask, roles).Ok?
    ensures var r := HeadPlan(ask, view, roles, text);
            && PlanByKind("monolithic", ask, view, roles, text) == r
            && (r.Ok? <==> Satisfiable(view, ask.role))
            && (r.Err? ==> r.error.EscalateNowhere? && (r.error.constraint.None? <==> view.hosts == map[]))
            && (r.Ok? ==>
                  && (r.value.hostKey == ask.nodeId <==> ServedLocally(ask, view))
                  && r.value.nodeId == ask.nodeId && r.value.role == ask.role
                  && r.value.rttMs == if r.value.hostKey == ask.nodeId then None
                                      else RttMs(view.latency, ask.nodeId, r.value.hostKey))
  {
    LocalIffServed(ask, view);
    var h, i := MonolithicIsOptimal(ask, view, text);
    if Monolithic(ask, view, text).Some? {
      assert view.hosts[h].slots[i] in view.hosts[h].slots;
    }
    if Satisfiable(view, ask.role) {
      var g :| g in view.hosts && !view.hosts[g].locked && SomeServes(view.hosts[g].slots, ask.role);
      if g != ask.nodeId {
        var s :| s in view.hosts[g].slots && Serves(s, ask.role);
        var j: nat :| j < |view.hosts[g].slots| && view.hosts[g].slots[j] == s;
        assert Eligible(ask, view, g, j);
      }
    }
  }

  /** Served locally, the answer is the asker's own slot with the most headroom, the last
      of equals, and no round trip. */
  lemma LocalAnswerIsBest(ask: PlanRequest, view: FleetView, roles: seq<string>, text: Text) returns (i: nat)
    requires ValidateAsk(ask, roles).Ok? && ServedLocally(ask, view)
    ensures HeadPlan(ask, view, roles, text).Ok?
    ensures var slots, f := view.hosts[ask.nodeId].slots, HeadPlan(ask, view, roles, text).value;
            && IsLastBest(slots, ask.role, i) && Names(f, ask, ask.nodeId, slots[i], None)
            && f.reason == "local plan satisfies this role"
  {
    LocalIffServed(ask, view);
    i := LastBestIsLastBest(view.hosts[ask.nodeId].slots, ask.role, None);
  }

  /** Every entry point refuses the same asks in the same way, a missing field first, and
      only then an unknown planner. */
  lemma AsksAreValidatedFirst(kind: string, ask: PlanRequest, view: FleetView, roles: seq<string>, text: Text)
    ensures ValidateAsk(ask, roles)
         == if forall c :: c in ask.nodeId ==> IsSpace(c) then Err(MissingField("node_id"))
            else if forall c :: c in ask.role ==> IsSpace(c) then Err(MissingField("role"))
            else if ask.role !in roles then Err(UnknownRole(ask.role)) else Ok(())
    ensures ValidateAsk(ask, roles).Err? ==>
              var refused := Err(ValidateAsk(ask, roles).error);
              PlanByKind(kind, ask, view, roles, text) == refused && HeadPlan(ask, view, roles, text) == refused
    ensures ValidateAsk(ask, roles).Ok? && kind != "monolithic" && kind != "federated" ==>
              PlanByKind(kind, ask, view, roles, text) == Err(UnknownPlanner(kind))
  {
  }

  /** The unhealthy slots that list the role, on these hosts. */
  function UnhealthySlots(view: FleetView, hosts: set<string>, role: string): set<(string, int)>
    requires hosts <= view.hosts.Keys
  {
    set h, i | h in hosts && 0 <= i < |view.hosts[h].slots|
               && !view.hosts[h].slots[i].healthy && role in view.hosts[h].slots[i].roles :: (h, i)
  }

  lemma {:induction false} UnhealthyOnHost(h: string, slots: seq<SlotView>, role: string, n: nat)
    requires n <= |slots|
    ensures UnhealthyIn(slots[n..], role)
         == |set i | n <= i < |slots| && !slots[i].healthy && role in slots[i].roles :: (h, i)|
    decreases |slots| - n
  {
    var here := set i | n <= i < |slots| && !slots[i].healthy && role in slots[i].roles :: (h, i);
    if n < |slots| {
      var later := set i | n + 1 <= i < |slots| && !slots[i].healthy && role in slots[i].roles :: (h, i);
      assert slots[n..][1..] == slots[n + 1..];
      UnhealthyOnHost(h, slots, role, n + 1);
      assert here == later + if !slots[n].healthy && role in slots[n].roles then {(h, n)} else {};
      assert (h, n) !in later;
    } else {
      assert here == {};
    }
  }

  /** The refusal counts every unhealthy slot that lists the role once, on all hosts. */
  lemma {:induction false} UnhealthyAreCounted(view: FleetView, keys: seq<string>, role: string)
    requires Order.Ascending(keys) && forall k :: k in keys ==> k in view.hosts
    ensures UnhealthyOn(view, keys, role) == |UnhealthySlots(view, (set k | k in keys), role)|
  {
    if keys == [] {
      assert UnhealthySlots(view, {}, role) == {};
      assert (set k | k in keys) == {};
    } else {
      var h, others := keys[0], set k | k in keys[1..];
      UnhealthyAreCounted(view, keys[1..], role);
      var slots := view.hosts[h].slots;
      UnhealthyOnHost(h, slots, role, 0);
      var here := set i | 0 <= i < |slots| && !slots[i].healthy && role in slots[i].roles :: (h, i);
      assert slots[0..] == slots;
      assert h !in others by {
        Order.Irreflexive(h);
      }
      assert (set k | k in keys) == {h} + others;
      assert UnhealthySlots(view, (set k | k in keys), role) == here + UnhealthySlots(view, others, role);
      assert here !! UnhealthySlots(view, others, role);
    }
  }

  /** Names are joined by a comma and a space. */
  lemma {:induction false} JoinOn(names: seq<string>, last: string)
    ensures Join([]) == "" && Join([last]) == last
    ensures names != [] ==> Join(names + [last]) == Join(names) + ", " + last
  {
    if |names| > 1 {
      JoinOn(names[1..], last);
      assert (names + [last])[1..] == names[1..] + [last];
    } else if |names| == 1 {
      assert (names + [last])[1..] == [last];
    }
  }

  /** A refusal tells the role and the number of hosts, names the locked ones in order,
      and counts the unhealthy slots that list the role; without hosts it tells nothing. */
  lemma RefusalTellsWhatIsThere(ask: PlanRequest, view: FleetView, text: Text)
    ensures EscalateConstraint(ask, view, text).Some? <==> view.hosts != map[]
    ensures var locked := Order.Sorted(set k | k in view.hosts && view.hosts[k].locked);
            var unhealthy := |UnhealthySlots(view, view.hosts.Keys, ask.role)|;
            view.hosts != map[] ==>
              EscalateConstraint(ask, view, text).value
              == "no healthy unlocked slot serves role " + text.quoted(ask.role) + " across "
                 + text.count(|view.hosts|) + " host(s)"
                 + (if locked != [] then "; locked: " + Join(locked) else "")
                 + (if unhealthy > 0 then "; " + text.count(unhealthy) + " serving slot(s) unhealthy" else "")
  {
    var keys := Order.Sorted(view.hosts.Keys);
    UnhealthyAreCounted(view, keys, ask.role);
    assert (set k | k in keys) == view.hosts.Keys;
  }

  /** The per-node planner answers exactly the asks the head answers locally, with
      the same host, slot, model and resource; only the reason is worded differently. */
  lemma FederatedIsTheLocalStep(ask: PlanRequest, view: FleetView, roles: seq<string>, text: Text)
    requires ValidateAsk(ask, roles).Ok?
    ensures var r := PlanByKind("federated", ask, view, roles, text);
            && (r.Ok? <==> ServedLocally(ask, view))
            && (r.Ok? ==>
                  && HeadPlan(ask, view, roles, text) == Ok(r.value.(reason := "local plan satisfies this role"))
                  && r.value.reason == "local: " + ask.nodeId + " holds a healthy " + ask.role + " slot")
            && (r.Err? ==>
                  r.error == EscalateNowhere(match EscalateConstraint(ask, view, text)
                                             case Some(detail) => Some("federated: " + detail)
                                             case None => None))
  {
    LocalIffServed(ask, view);
  }

  // ---------------------------------------------------------- non-interference

  /** Both views offer the asker the same, from every host, its own included. */
  ghost predicate SameOffers(ask: PlanRequest, v: FleetView, w: FleetView) {
    && BestSlot(v, ask.nodeId, ask.role) == BestSlot(w, ask.nodeId, ask.role)
    && forall h :: Offer(ask, v, h) == Offer(ask, w, h)
  }

  lemma SameWinner(ask: PlanRequest, v: FleetView, w: FleetView, text: Text)
    requires match FirstBest(ask, v, Order.Sorted(v.hosts.Keys))
             case None => forall h :: h in w.hosts ==> Offer(ask, w, h).None?
             case Some(c) => IsWinner(ask, w, Order.Sorted(w.hosts.Keys), c)
    ensures Monolithic(ask, v, text) == Monolithic(ask, w, text)
  {
    var keys := Order.Sorted(w.hosts.Keys);
    FirstBestIsWinner(ask, w, keys);
    var a, b := FirstBest(ask, v, Order.Sorted(v.hosts.Keys)), FirstBest(ask, w, keys);
    if a.Some? && b.Some? {
      WinnerIsUnique(ask, w, keys, a.value, b.value);
    }
  }

  /** Same fragment, word for word; a refusal stays a refusal. */
  ghost predicate SameAnswer(a: Result<PlanFragment, PlanReject>, b: Result<PlanFragment, PlanReject>) {
    (a.Ok? <==> b.Ok?) && (a.Ok? ==> a == b)
  }

  lemma SameOffersSameAnswer(ask: PlanRequest, v: FleetView, w: FleetView, roles: seq<string>, text: Text)
    requires SameOffers(ask, v, w)
    ensures SameAnswer(HeadPlan(ask, v, roles, text), HeadPlan(ask, w, roles, text))
  {
    var keys, keys' := Order.Sorted(v.hosts.Keys), Order.Sorted(w.hosts.Keys);
    FirstBestIsWinner(ask, v, keys);
    var best := FirstBest(ask, v, keys);
    forall h | h in w.hosts && Offer(ask, w, h).Some? ensures h in keys {
      assert Offer(ask, v, h).Some?;
    }
    if best.Some? {
      assert Offer(ask, w, best.value.hostKey) == best;
      assert best.value.hostKey in keys';
      assert IsWinner(ask, w, keys', best.value);
    }
    SameWinner(ask, v, w, text);
  }

  /** Deleting a locked host changes nothing in the fragment. */
  lemma LockedHostIsInvisible(ask: PlanRequest, v: FleetView, locked: string, roles: seq<string>, text: Text)
    requires locked in v.hosts && v.hosts[locked].locked
    ensures SameAnswer(HeadPlan(ask, v, roles, text), HeadPlan(ask, v.(hosts := v.hosts - {locked}), roles, text))
  {
    SameOffersSameAnswer(ask, v, v.(hosts := v.hosts - {locked}), roles, text);
  }

  /** Neither does deleting a slot that does not serve the role, on any host. */
  lemma NonServingSlotDoesNotInterfere(ask: PlanRequest, v: FleetView, h: string, k: nat, roles: seq<string>,
                                       text: Text)
    requires h in v.hosts && k < |v.hosts[h].slots| && !Serves(v.hosts[h].slots[k], ask.role)
    ensures var slots := v.hosts[h].slots;
            var w := v.(hosts := v.hosts[h := v.hosts[h].(slots := slots[..k] + slots[k + 1..])]);
            SameAnswer(HeadPlan(ask, v, roles, text), HeadPlan(ask, w, roles, text))
  {
    var slots := v.hosts[h].slots;
    var w := v.(hosts := v.hosts[h := v.hosts[h].(slots := slots[..k] + slots[k + 1..])]);
    assert slots == slots[..k] + [slots[k]] + slots[k + 1..];
    NonServingSlotIsInvisible(slots[..k], slots[k], slots[k + 1..], ask.role, None);
    NonServingSlotIsInvisible(slots[..k], slots[k], slots[k + 1..], ask.role, RttMs(v.latency, ask.nodeId, h));
    forall g ensures Offer(ask, v, g) == Offer(ask, w, g) {
    }
    SameOffersSameAnswer(ask, v, w, roles, text);
  }

  /** Nor do the latency rows of other origins. */
  lemma OtherRowsDoNotInterfere(ask: PlanRequest, v: FleetView, latency: LatencyMatrix, roles: seq<string>, text: Text)
    requires Get(latency, ask.nodeId) == Get(v.latency, ask.nodeId)
    ensures SameAnswer(HeadPlan(ask, v, roles, text), HeadPlan(ask, v.(latency := latency), roles, text))
  {
    var w := v.(latency := latency);
    forall g ensures Offer(ask, v, g) == Offer(ask, w, g) {
      assert RttMs(v.latency, ask.nodeId, g) == RttMs(latency, ask.nodeId, g);
    }
    SameOffersSameAnswer(ask, v, w, roles, text);
  }

  /** In view `w` host `h` offers nothing, or something the fragment's host beats. */
  ghost predicate Loses(ask: PlanRequest, w: FleetView, h: string, winner: Candidate) {
    Offer(ask, w, h).Some? ==>
      var other := Offer(ask, w, h).value;
      other.score < winner.score || (other.score == winner.score && Order.Less(winner.hostKey, h))
  }

  /** Replacing a losing host by any host that still loses, or adding a new host that
      loses, leaves the whole fragment as it was. */
  lemma LoserDoesNotInterfere(ask: PlanRequest, v: FleetView, h: string, host: HostView, roles: seq<string>, text: Text)
    requires h != ask.nodeId && HeadPlan(ask, v, roles, text).Ok?
    requires var best := FirstBest(ask, v, Order.Sorted(v.hosts.Keys));
             best.Some? ==> best.value.hostKey != h && Loses(ask, v.(hosts := v.hosts[h := host]), h, best.value)
    ensures HeadPlan(ask, v.(hosts := v.hosts[h := host]), roles, text) == HeadPlan(ask, v, roles, text)
  {
    var w := v.(hosts := v.hosts[h := host]);
    var keys := Order.Sorted(v.hosts.Keys);
    assert BestSlot(v, ask.nodeId, ask.role) == BestSlot(w, ask.nodeId, ask.role);
    FirstBestIsWinner(ask, v, keys);
    var best := FirstBest(ask, v, keys);
    if best.Some? {
      WinnerStays(ask, v, w, h, best.value);
      SameWinner(ask, v, w, text);
    }
  }

  lemma WinnerStays(ask: PlanRequest, v: FleetView, w: FleetView, h: string, c: Candidate)
    requires h in w.hosts && w == v.(hosts := v.hosts[h := w.hosts[h]])
    requires IsWinner(ask, v, Order.Sorted(v.hosts.Keys), c) && c.hostKey != h && Loses(ask, w, h, c)
    ensures IsWinner(ask, w, Order.Sorted(w.hosts.Keys), c)
  {
    OfferUnchanged(ask, v, w, h, c.hostKey);
    forall g | g in Order.Sorted(w.hosts.Keys) && Offer(ask, w, g).Some? && g != c.hostKey
      ensures Loses(ask, w, g, c)
    {
      if g != h {
        OfferUnchanged(ask, v, w, h, g);
      }
    }
  }

  lemma OfferUnchanged(ask: PlanRequest, v: FleetView, w: FleetView, h: string, g: string)
    requires h in w.hosts && w == v.(hosts := v.hosts[h := w.hosts[h]]) && g != h
    ensures Offer(ask, v, g) == Offer(ask, w, g) && (g in v.hosts <==> g in w.hosts)
  {
  }
}
