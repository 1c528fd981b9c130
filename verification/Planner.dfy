/** The head's planner: one ask, one fragment. */
module Planner {
  import opened FabricTypes
  import Order

  // ---------------------------------------------------------------- the view

  datatype SlotView = SlotView(
    slot: string,
    modelId: string,
    roles: seq<string>,
    healthy: bool,
    freeMb: real,
    resourceId: Option<string>)

  predicate Serves(s: SlotView, role: string) {
    s.healthy && (if s.roles == [] then s.modelId != "" else role in s.roles)
  }

  datatype HostView = HostView(slots: seq<SlotView>, locked: bool)

  /** Measured round trips, from -> to; an unmeasured pair is absent or None. */
  type LatencyMatrix = map<string, map<string, Option<real>>>

  function RttMs(m: LatencyMatrix, from: string, to: string): Option<real> {
    if from in m && to in m[from] then m[from][to] else None
  }

  datatype FleetView = FleetView(hosts: map<string, HostView>, latency: LatencyMatrix)

  datatype PlanRequest = PlanRequest(nodeId: string, role: string)

  datatype PlanFragment = PlanFragment(
    nodeId: string,
    role: string,
    hostKey: string,
    slot: string,
    modelId: string,
    reason: string,
    resourceId: Option<string>,
    rttMs: Option<real>)

  datatype PlanReject =
    | UnknownRole(role: string)
    | EscalateNowhere(constraint: Option<string>)
    | MissingField(field: string)
    | UnknownPlanner(kind: string)

  /** How numbers and quoted strings are written into a reason. */
  datatype Text = Text(
    rtt: real -> string,
    mib: real -> string,
    quoted: string -> string,
    count: nat -> string)

  // ------------------------------------------------------------- best slot

  const LATENCY_MB_PER_MS: real := 512.0

  function FleetScore(freeMb: real, rttMs: Option<real>): real {
    match rttMs
    case Some(ms) => freeMb - LATENCY_MB_PER_MS * ms
    case None => freeMb
  }

  /** The serving slot with the highest score; of equals, the last. */
  function LastBest(slots: seq<SlotView>, role: string, rttMs: Option<real>): Option<SlotView>
    decreases |slots|
  {
    if slots == [] then None
    else
      var last := slots[|slots| - 1];
      var best := LastBest(slots[..|slots| - 1], role, rttMs);
      if !Serves(last, role) then best
      else if best.Some? && FleetScore(best.value.freeMb, rttMs) > FleetScore(last.freeMb, rttMs) then best
      else Some(last)
  }

  /** By raw headroom, on one host of the view. */
  function BestSlot(view: FleetView, hostKey: string, role: string): Option<SlotView> {
    if hostKey !in view.hosts || view.hosts[hostKey].locked then None
    else LastBest(view.hosts[hostKey].slots, role, None)
  }

  function BestSlotScored(host: HostView, role: string, rttMs: Option<real>): Option<(real, SlotView)> {
    if host.locked then None
    else
      match LastBest(host.slots, role, rttMs)
      case None => None
      case Some(s) => Some((FleetScore(s.freeMb, rttMs), s))
  }

  // ------------------------------------------------------------ the planners

  function FragmentFor(ask: PlanRequest, hostKey: string, s: SlotView, rttMs: Option<real>, reason: string)
    : PlanFragment
  {
    PlanFragment(ask.nodeId, ask.role, hostKey, s.slot, s.modelId, reason, s.resourceId, rttMs)
  }

  datatype Candidate = Candidate(score: real, hostKey: string, slot: SlotView, rttMs: Option<real>)

  /** What one host of the fleet offers the asker; the asker's own host never does. */
  function Offer(ask: PlanRequest, view: FleetView, hostKey: string): Option<Candidate> {
    if hostKey !in view.hosts || hostKey == ask.nodeId then None
    else
      var rtt := RttMs(view.latency, ask.nodeId, hostKey);
      match BestSlotScored(view.hosts[hostKey], ask.role, rtt)
      case None => None
      case Some((score, s)) => Some(Candidate(score, hostKey, s, rtt))
  }

  /** The best offer along a walk of the hosts; a later one must be strictly better. */
  function FirstBest(ask: PlanRequest, view: FleetView, keys: seq<string>): Option<Candidate>
    decreases |keys|
  {
    if keys == [] then None
    else
      var best := FirstBest(ask, view, keys[..|keys| - 1]);
      var offer := Offer(ask, view, keys[|keys| - 1]);
      if offer.Some? && (best.None? || offer.value.score > best.value.score) then offer else best
  }

  function FleetWide(ask: PlanRequest, text: Text, c: Candidate): PlanFragment {
    var latency := if c.rttMs.Some? then "rtt " + text.rtt(c.rttMs.value) + " ms" else "rtt not measured";
    FragmentFor(ask, c.hostKey, c.slot, c.rttMs,
      "fleet-wide: " + c.hostKey + " has a healthy " + ask.role + " slot (" + text.mib(c.slot.freeMb)
      + " MiB free, " + latency + ")")
  }

  function Monolithic(ask: PlanRequest, view: FleetView, text: Text): Option<PlanFragment> {
    match FirstBest(ask, view, Order.Sorted(view.hosts.Keys))
    case None => None
    case Some(c) => Some(FleetWide(ask, text, c))
  }

  /** The planner's loop over the hosts, in key order. */
  method MonolithicPlan(ask: PlanRequest, view: FleetView, text: Text) returns (answer: Option<PlanFragment>)
    ensures answer == Monolithic(ask, view, text)
  {
    var keys := Order.Sorted(view.hosts.Keys);
    var best: Option<Candidate> := None;
    for i := 0 to |keys|
      invariant best == FirstBest(ask, view, keys[..i])
    {
      var hostKey := keys[i];
      assert keys[..i + 1][..i] == keys[..i] && hostKey in keys;
      if hostKey == ask.nodeId {
        continue;
      }
      var rtt := RttMs(view.latency, ask.nodeId, hostKey);
      var scored := BestSlotScored(view.hosts[hostKey], ask.role, rtt);
      if scored.None? {
        continue;
      }
      var (score, s) := scored.value;
      var better := best.None? || score > best.value.score;
      if better {
        best := Some(Candidate(score, hostKey, s, rtt));
      }
    }
    assert keys[..|keys|] == keys;
    answer := if best.None? then None else Some(FleetWide(ask, text, best.value));
  }

  function Federated(ask: PlanRequest, view: FleetView): Option<PlanFragment> {
    if ask.nodeId !in view.hosts then None
    else
      match BestSlotScored(view.hosts[ask.nodeId], ask.role, None)
      case None => None
      case Some((_, s)) =>
        Some(FragmentFor(ask, ask.nodeId, s, None, "local: " + ask.nodeId + " holds a healthy " + ask.role + " slot"))
  }

  // ---------------------------------------------------------------- refusal

  function Join(names: seq<string>): string {
    if names == [] then ""
    else if |names| == 1 then names[0]
    else names[0] + ", " + Join(names[1..])
  }

  function UnhealthyIn(slots: seq<SlotView>, role: string): nat {
    if slots == [] then 0
    else (if !slots[0].healthy && role in slots[0].roles then 1 else 0) + UnhealthyIn(slots[1..], role)
  }

  function UnhealthyOn(view: FleetView, keys: seq<string>, role: string): nat
    requires forall k :: k in keys ==> k in view.hosts
  {
    if keys == [] then 0
    else UnhealthyIn(view.hosts[keys[0]].slots, role) + UnhealthyOn(view, keys[1..], role)
  }

  /** What the refusal can name; nothing when there is no host at all. */
  function EscalateConstraint(ask: PlanRequest, view: FleetView, text: Text): Option<string> {
    if view.hosts == map[] then None
    else
      var locked := Order.Sorted(set k | k in view.hosts && view.hosts[k].locked);
      var unhealthy := UnhealthyOn(view, Order.Sorted(view.hosts.Keys), ask.role);
      Some("no healthy unlocked slot serves role " + text.quoted(ask.role) + " across "
           + text.count(|view.hosts|) + " host(s)"
           + (if locked != [] then "; locked: " + Join(locked) else "")
           + (if unhealthy > 0 then "; " + text.count(unhealthy) + " serving slot(s) unhealthy" else ""))
  }

  // ------------------------------------------------------------ the decision

  /** The characters Unicode counts as white space, which trimming removes. */
  predicate IsSpace(c: char) {
    || '\t' <= c <= '\r' || c == ' ' || c == '\U{0085}' || c == '\U{00A0}' || c == '\U{1680}'
    || '\U{2000}' <= c <= '\U{200A}' || c == '\U{2028}' || c == '\U{2029}' || c == '\U{202F}'
    || c == '\U{205F}' || c == '\U{3000}'
  }

  predicate IsBlank(s: string) {
    forall c :: c in s ==> IsSpace(c)
  }

  function ValidateAsk(ask: PlanRequest, roles: seq<string>): Result<(), PlanReject> {
    if IsBlank(ask.nodeId) then Err(MissingField("node_id"))
    else if IsBlank(ask.role) then Err(MissingField("role"))
    else if ask.role !in roles then Err(UnknownRole(ask.role))
    else Ok(())
  }

  /** Local first, then fleet-wide, then a refusal said out loud. */
  function HeadPlan(ask: PlanRequest, view: FleetView, roles: seq<string>, text: Text)
    : Result<PlanFragment, PlanReject>
  {
    match ValidateAsk(ask, roles)
    case Err(error) => Err(error)
    case Ok(_) =>
      match BestSlot(view, ask.nodeId, ask.role)
      case Some(s) => Ok(FragmentFor(ask, ask.nodeId, s, None, "local plan satisfies this role"))
      case None =>
        match Monolithic(ask, view, text)
        case Some(fragment) => Ok(fragment)
        case None => Err(EscalateNowhere(EscalateConstraint(ask, view, text)))
  }

  function PlanWithFederated(ask: PlanRequest, view: FleetView, roles: seq<string>, text: Text)
    : Result<PlanFragment, PlanReject>
  {
    match ValidateAsk(ask, roles)
    case Err(error) => Err(error)
    case Ok(_) =>
      match Federated(ask, view)
      case Some(fragment) => Ok(fragment)
      case None =>
        Err(EscalateNowhere(
          match EscalateConstraint(ask, view, text)
          case Some(detail) => Some("federated: " + detail)
          case None => None))
  }

  function PlanByKind(kind: string, ask: PlanRequest, view: FleetView, roles: seq<string>, text: Text)
    : Result<PlanFragment, PlanReject>
  {
    match ValidateAsk(ask, roles)
    case Err(error) => Err(error)
    case Ok(_) =>
      if kind == "monolithic" then HeadPlan(ask, view, roles, text)
      else if kind == "federated" then PlanWithFederated(ask, view, roles, text)
      else Err(UnknownPlanner(kind))
  }
}
