/** The fabric under any number of threads.

    A thread runs one call at a time as a list of stages. A stage is one lock's
    critical section, or one call into the outside world made with locks held:
    entering the lock and running the section are separate steps, so every
    interleaving of lock acquisitions and sections is a run of this system. */
module Interleaving {
  import opened FabricTypes
  import opened FabricState
  import Store

  // ---------------------------------------------------------------- locks

  datatype Lock =
    | Leases
    | Heartbeats
    | Adapters
    | Resources
    | Attachments
    | Internal(kind: AdapterKind)

  datatype Mode = Read | Write

  datatype Hold = Hold(lock: Lock, mode: Mode)

  predicate Conflict(a: Hold, b: Hold) {
    a.lock == b.lock && !(a.mode.Read? && b.mode.Read?)
  }

  /** The order every method takes its locks in. */
  function Rank(l: Lock): (rank: nat)
    ensures rank <= 2
  {
    match l
    case Leases => 0
    case Heartbeats => 0
    case Adapters => 1
    case Resources => 2
    case Attachments => 2
    case Internal(_) => 2
  }

  // --------------------------------------------------------------- threads

  /** One entry of the work list that refresh and eviction leave behind. */
  datatype RegistryOp = Add(resource: Resource) | Drop(id: string)

  datatype Stage =
    | RegisterAdapter(name: string, kind: AdapterKind)
    | ReadAdapters
    | ReportGpu
    | Beat(node: string)
    | ReadResources
    | Register(resource: Resource, todo: seq<RegistryOp>)
    | UnregisterCheck(id: string, todo: seq<RegistryOp>)
    | UnregisterRemove(id: string, todo: seq<RegistryOp>)
    | LeaseLookup(resourceId: string, owner: string, ttl: nat)
    | LeaseGrant(resourceId: string, owner: string, ttl: nat)
    | Renew(lease: Lease, ttl: nat)
    | FindLeases
    | FindResources
    | AttachLookup(adapter: string, lease: Lease)
    | AttachCheck(adapter: string, lease: Lease, resource: Resource)
    | AttachAdapter(adapter: string, lease: Lease, resource: Resource)
    | VmCheck(adapter: string, lease: Lease, resource: Resource)
    | VmProbe(adapter: string, lease: Lease, resource: Resource)
    | VmLaunch(adapter: string, lease: Lease, resource: Resource)
    | VmRecord(adapter: string, lease: Lease, resource: Resource)
    | StoreInsert(adapter: string, lease: Lease, store: Store.StoreResolution)
    | GpuReserve(adapter: string, lease: Lease, second: bool)
    | AttachRecord(adapter: string, lease: Lease)
    | ReleaseCheck(lease: Lease)
    | ReleaseTake(lease: Lease)
    | ReleaseLookup(lease: Lease, adapter: string)
    | ReleaseAdapter(lease: Lease, adapter: string, resource: Resource)
    | ReleaseDetach(lease: Lease, resource: Resource)
    | ReleaseCommit(lease: Lease)
    | EvictBeats(cutoff: int)
    | EvictScan(stale: set<string>)
    | RefreshScan(discovered: seq<Resource>)
    | Reconcile
    | ReconcileRemove(vm: string, rest: seq<string>)
    | ReconcileForget(vm: string, rest: seq<string>)

  /** What the last call of a thread answered. */
  datatype Reply =
    | Finished
    | Leased(lease: Lease)
    | Renewed(lease: Lease)
    | Attached(leaseId: nat)
    | Released
    | Unregistered(existed: bool)
    | Failed(error: FabricError)

  /** Idle, or at a stage: waiting for its lock, or inside its section. */
  datatype Thread = Idle(reply: Reply) | At(stage: Stage, inside: bool)

  /** The lock a stage's critical section runs under. */
  function Needs(st: Stage): Option<Hold> {
    match st
    case RegisterAdapter(_, _) => Some(Hold(Adapters, Write))
    case ReadAdapters | AttachAdapter(_, _, _) | ReleaseAdapter(_, _, _) => Some(Hold(Adapters, Read))
    case ReportGpu | GpuReserve(_, _, _) => Some(Hold(Internal(GpuLocal), Write))
    case Beat(_) | EvictBeats(_) => Some(Hold(Heartbeats, Write))
    case Register(_, _) | UnregisterRemove(_, _) => Some(Hold(Resources, Write))
    case ReadResources | LeaseLookup(_, _, _) | FindResources | AttachLookup(_, _)
       | ReleaseLookup(_, _) | EvictScan(_) | RefreshScan(_) => Some(Hold(Resources, Read))
    case UnregisterCheck(_, _) | LeaseGrant(_, _, _) | Renew(_, _) | FindLeases
       | AttachCheck(_, _, _) | ReleaseCheck(_) | ReleaseCommit(_) => Some(Hold(Leases, Write))
    case VmCheck(_, _, _) | VmRecord(_, _, _) | Reconcile | ReconcileForget(_, _) =>
      Some(Hold(Internal(CloudHypervisor), Write))
    case StoreInsert(_, _, _) | ReleaseDetach(_, _) => Some(Hold(Internal(FabricStore), Write))
    case AttachRecord(_, _) | ReleaseTake(_) => Some(Hold(Attachments, Write))
    case VmProbe(_, _, _) | VmLaunch(_, _, _) | ReconcileRemove(_, _) => None
  }

  /** The locks held from before a stage until after it. `attach` keeps the lease
      lock across the whole adapter call; `release` keeps the adapter registry
      readable across the detach; reports are collected under that lock too. */
  function Outer(st: Stage): set<Hold> {
    match st
    case FindResources | AttachAdapter(_, _, _) | VmCheck(_, _, _) | VmProbe(_, _, _)
       | VmLaunch(_, _, _) | VmRecord(_, _, _) | StoreInsert(_, _, _) | GpuReserve(_, _, _)
       | AttachRecord(_, _) => {Hold(Leases, Write)}
    case ReleaseDetach(_, _) | ReportGpu => {Hold(Adapters, Read)}
    case _ => {}
  }

  function Held(t: Thread): set<Hold> {
    match t
    case Idle(_) => {}
    case At(st, inside) =>
      Outer(st) + (if inside && Needs(st).Some? then {Needs(st).value} else {})
  }

  function Wants(t: Thread): Option<Hold> {
    if t.At? && !t.inside then Needs(t.stage) else None
  }

  // ----------------------------------------------------------------- state

  /** What happened to a lease so far: when it was granted, the deadline its last
      renewal gave it, and when (if ever) it was released. */
  datatype Grant = Grant(resourceId: string, grantedAt: nat, deadline: nat, releasedAt: Option<nat>)

  datatype History = History(
    grants: map<nat, Grant>,
    launches: map<string, nat>,
    removals: map<string, nat>,
    forgets: map<string, nat>)

  datatype System = System(shared: FabricState, history: History, threads: map<nat, Thread>)

  /** What a section leaves in the history. */
  datatype Note =
    | Quiet
    | Granted(id: nat, resourceId: string, at: nat, deadline: nat)
    | Extended(id: nat, deadline: nat)
    | Dropped(id: nat, at: nat)
    | Launched(vm: string)
    | Removed(vm: string)
    | Forgot(vm: string)

  function Bump(m: map<string, nat>, k: string): map<string, nat> {
    m[k := Count(m, k) + 1]
  }

  function Count(m: map<string, nat>, k: string): nat {
    if k in m then m[k] else 0
  }

  function RecordGrant(g: map<nat, Grant>, note: Note): map<nat, Grant> {
    match note
    case Granted(id, rid, at, deadline) => g[id := Grant(rid, at, deadline, None)]
    case Extended(id, deadline) => if id in g then g[id := g[id].(deadline := deadline)] else g
    case Dropped(id, at) => if id in g then g[id := g[id].(releasedAt := Some(at))] else g
    case _ => g
  }

  function Record(h: History, note: Note): History {
    History(RecordGrant(h.grants, note),
            if note.Launched? then Bump(h.launches, note.vm) else h.launches,
            if note.Removed? then Bump(h.removals, note.vm) else h.removals,
            if note.Forgot? then Bump(h.forgets, note.vm) else h.forgets)
  }

  /** What the outside world decides during a section: the clock at its end, the
      reading a deadline is computed from, which entries a prune keeps (each entry
      is compared with its own clock reading), what the host answers, and in which
      order a hash map is walked. */
  datatype Choice = Choice(read: nat, now: nat, keep: set<string>, host: Host, order: seq<string>)

  // ------------------------------------------------------------ the sections

  datatype Effect = Effect(next: Thread, shared: FabricState, note: Note)

  function Failing(error: FabricError): Thread {
    Idle(Failed(error))
  }

  function Goto(st: Stage): Thread {
    At(st, false)
  }

  function Attempt<T>(r: Result<T, FabricError>, st: Stage): Thread {
    match r
    case Err(error) => Failing(error)
    case Ok(_) => Goto(st)
  }

  function Continue(todo: seq<RegistryOp>, last: Reply): Thread {
    if todo == [] then Idle(last)
    else
      match todo[0]
      case Add(r) => Goto(Register(r, todo[1..]))
      case Drop(id) => Goto(UnregisterCheck(id, todo[1..]))
  }

  function ReconcileNext(rest: seq<string>): Thread {
    if rest == [] then Idle(Finished) else Goto(ReconcileRemove(rest[0], rest[1..]))
  }

  function Drops(ids: seq<string>): seq<RegistryOp> {
    seq(|ids|, i requires 0 <= i < |ids| => Drop(ids[i]))
  }

  /** The registrations refresh makes: every discovered resource whose id was not
      registered when the registry was read. */
  function Adds(rs: seq<Resource>, known: set<string>): seq<RegistryOp> {
    if rs == [] then []
    else (if rs[0].id in known then [] else [Add(rs[0])]) + Adds(rs[1..], known)
  }

  /** The sections that change nothing but the thread's own course. */
  predicate OnlyReads(st: Stage) {
    match st
    case ReadAdapters | ReportGpu | ReadResources | UnregisterCheck(_, _) | LeaseLookup(_, _, _)
       | FindLeases | FindResources | AttachLookup(_, _) | AttachCheck(_, _, _) | AttachAdapter(_, _, _)
       | VmCheck(_, _, _) | VmProbe(_, _, _) | GpuReserve(_, _, _) | ReleaseCheck(_)
       | ReleaseLookup(_, _) | ReleaseAdapter(_, _, _) | EvictScan(_) | RefreshScan(_) | Reconcile => true
    case _ => false
  }

  function AdapterSection(adapter: string, lease: Lease, resource: Resource, m: FabricState, c: Choice): Thread {
    if adapter !in m.adapters then Failing(AdapterNotFound)
    else
      match m.adapters[adapter]
      case CloudHypervisor => Attempt(VmPrecheck(adapter, resource, c.host), VmCheck(adapter, lease, resource))
      case FabricStore =>
        (match StorePrecheck(adapter, resource, c.host)
         case Err(error) => Failing(error)
         case Ok(store) => Goto(StoreInsert(adapter, lease, store)))
      case GpuLocal => Attempt(GpuPrecheck(adapter, resource), GpuReserve(adapter, lease, false))
      case Stateless =>
        if c.host.accepts then Goto(AttachRecord(adapter, lease))
        else Failing(AdapterBackendUnavailable(adapter, "refused"))
  }

  /** Where a section that only reads sends its thread. */
  function Look(st: Stage, m: FabricState, c: Choice): Thread
    requires OnlyReads(st)
  {
    match st
    case ReadAdapters => Goto(ReportGpu)
    case UnregisterCheck(id, todo) =>
      if id in m.leases then Continue(todo, Failed(ResourceAlreadyLeased)) else Goto(UnregisterRemove(id, todo))
    case LeaseLookup(rid, owner, ttl) =>
      if rid !in m.resources then Failing(ResourceNotFound)
      else if m.resources[rid].state != Available || !m.resources[rid].exclusive then Failing(ResourceUnavailable)
      else Goto(LeaseGrant(rid, owner, ttl))
    case FindLeases => Goto(FindResources)
    case AttachLookup(adapter, lease) =>
      if lease.resourceId !in m.resources then Failing(ResourceNotFound)
      else Goto(AttachCheck(adapter, lease, m.resources[lease.resourceId]))
    case AttachCheck(adapter, lease, resource) =>
      if Matches(m, lease) && m.leases[lease.resourceId].expiresAt > c.read then
        Goto(AttachAdapter(adapter, lease, resource))
      else Failing(LeaseNotFound)
    case AttachAdapter(adapter, lease, resource) => AdapterSection(adapter, lease, resource, m, c)
    case VmCheck(adapter, lease, resource) =>
      if IsManaged(m.managed, resource) then Goto(AttachRecord(adapter, lease))
      else Goto(VmProbe(adapter, lease, resource))
    case VmProbe(adapter, lease, resource) =>
      if c.host.running then Goto(VmRecord(adapter, lease, resource)) else Goto(VmLaunch(adapter, lease, resource))
    case GpuReserve(adapter, lease, second) =>
      if second || c.host.reserved then Goto(AttachRecord(adapter, lease)) else Goto(GpuReserve(adapter, lease, true))
    case ReleaseCheck(lease) => if Matches(m, lease) then Goto(ReleaseTake(lease)) else Failing(LeaseNotFound)
    case ReleaseLookup(lease, adapter) =>
      if lease.resourceId !in m.resources then Goto(ReleaseCommit(lease))
      else Goto(ReleaseAdapter(lease, adapter, m.resources[lease.resourceId]))
    case ReleaseAdapter(lease, adapter, resource) =>
      if adapter in m.adapters && m.adapters[adapter] == FabricStore then Goto(ReleaseDetach(lease, resource))
      else Goto(ReleaseCommit(lease))
    case EvictScan(stale) => Continue(Drops(c.order), Finished)
    case RefreshScan(discovered) => Continue(Adds(discovered, m.resources.Keys) + Drops(c.order), Finished)
    case Reconcile => ReconcileNext(c.order)
    case _ => Idle(Finished)
  }

  function GrantSection(rid: string, owner: string, ttl: nat, m: FabricState, c: Choice): Effect {
    var m' := m.(leases := Pruned(m.leases, c.keep));
    if rid in m'.leases then Effect(Failing(ResourceAlreadyLeased), m', Quiet)
    else
      var lease := Lease(m.nextLeaseId + 1, rid, owner);
      Effect(Idle(Leased(lease)),
             m'.(nextLeaseId := lease.id, leases := m'.leases[rid := ActiveLease(lease, c.read + ttl)]),
             Granted(lease.id, rid, c.read, c.read + ttl))
  }

  function RenewSection(lease: Lease, ttl: nat, m: FabricState, c: Choice): Effect {
    var m' := m.(leases := Pruned(m.leases, c.keep));
    if !Matches(m', lease) then Effect(Failing(LeaseNotFound), m', Quiet)
    else
      var active := m'.leases[lease.resourceId];
      Effect(Idle(Renewed(active.lease)),
             m'.(leases := m'.leases[lease.resourceId := active.(expiresAt := c.read + ttl)]),
             Extended(active.lease.id, c.read + ttl))
  }

  function CommitSection(lease: Lease, m: FabricState, c: Choice): Effect {
    if Matches(m, lease) then
      Effect(Idle(Released), m.(leases := m.leases - {lease.resourceId}), Dropped(lease.id, c.now))
    else Effect(Failing(LeaseNotFound), m, Quiet)
  }

  function DetachSection(lease: Lease, resource: Resource, m: FabricState): Effect {
    if lease.id !in m.live then Effect(Goto(ReleaseCommit(lease)), m, Quiet)
    else if m.live[lease.id].resourceId == resource.id then
      Effect(Goto(ReleaseCommit(lease)), m.(live := m.live - {lease.id}), Quiet)
    else Effect(Failing(LeaseNotFound), m, Quiet)
  }

  /** Runs the section of `st` on the shared state. */
  function Exec(st: Stage, m: FabricState, c: Choice): Effect {
    if OnlyReads(st) then Effect(Look(st, m, c), m, Quiet)
    else
      match st
      case RegisterAdapter(name, kind) =>
        Effect(Idle(Finished), m.(adapters := m.adapters[name := kind]), Quiet)
      case Beat(node) => Effect(Idle(Finished), m.(heartbeats := m.heartbeats[node := c.read]), Quiet)
      case Register(r, todo) =>
        Effect(Continue(todo, Finished), m.(resources := m.resources[r.id := r]), Quiet)
      case UnregisterRemove(id, todo) =>
        Effect(Continue(todo, Unregistered(id in m.resources)), m.(resources := m.resources - {id}), Quiet)
      case LeaseGrant(rid, owner, ttl) => GrantSection(rid, owner, ttl, m, c)
      case Renew(lease, ttl) => RenewSection(lease, ttl, m, c)
      case VmLaunch(adapter, lease, resource) =>
        (match VmStart(adapter, resource, c.host)
         case Err(error) => Effect(Failing(error), m, Quiet)
         case Ok(_) => Effect(Goto(VmRecord(adapter, lease, resource)), m, Launched(resource.id)))
      case VmRecord(adapter, lease, resource) =>
        Effect(Goto(AttachRecord(adapter, lease)),
               m.(managed := m.managed[resource.id := VmRecordOf(resource)]), Quiet)
      case StoreInsert(adapter, lease, store) =>
        Effect(Goto(AttachRecord(adapter, lease)), m.(live := m.live[lease.id := store]), Quiet)
      case AttachRecord(adapter, lease) =>
        Effect(Idle(Attached(lease.id)), m.(attachments := m.attachments[lease.resourceId := adapter]), Quiet)
      case ReleaseTake(lease) =>
        if lease.resourceId !in m.attachments then Effect(Goto(ReleaseCommit(lease)), m, Quiet)
        else Effect(Goto(ReleaseLookup(lease, m.attachments[lease.resourceId])),
                    m.(attachments := m.attachments - {lease.resourceId}), Quiet)
      case ReleaseDetach(lease, resource) => DetachSection(lease, resource, m)
      case ReleaseCommit(lease) => CommitSection(lease, m, c)
      case EvictBeats(cutoff) =>
        var stale := Stale(m.heartbeats, cutoff);
        if stale == {} then Effect(Idle(Finished), m, Quiet)
        else Effect(Goto(EvictScan(stale)), m.(heartbeats := m.heartbeats - stale), Quiet)
      case ReconcileRemove(vm, rest) =>
        if c.host.removed then Effect(Goto(ReconcileForget(vm, rest)), m, Removed(vm))
        else Effect(ReconcileNext(rest), m, Quiet)
      case ReconcileForget(vm, rest) =>
        Effect(ReconcileNext(rest), m.(managed := m.managed - {vm}), Forgot(vm))
      case _ => Effect(Idle(Finished), m, Quiet)
  }

  // ------------------------------------------------------------------- runs

  ghost predicate Enumerates(order: seq<string>, ids: set<string>) {
    && (forall id :: id in ids <==> id in order)
    && (forall i, j :: 0 <= i < j < |order| ==> order[i] != order[j])
  }

  /** A prune keeps only what outlives some reading, and drops only what some
      reading has passed. */
  ghost predicate PruneOk(leases: map<string, ActiveLease>, keep: set<string>, now: nat, read: nat) {
    && keep <= leases.Keys
    && (forall rid :: rid in keep ==> leases[rid].expiresAt > now)
    && (forall rid :: rid in leases && rid !in keep ==> leases[rid].expiresAt <= read)
  }

  /** The keys a scan walks. */
  function Walked(st: Stage, m: FabricState): set<string> {
    match st
    case EvictScan(stale) => Owned(m.resources, stale)
    case RefreshScan(discovered) => m.resources.Keys - Ids(discovered)
    case Reconcile => m.managed.Keys
    case _ => {}
  }

  /** Which choices the outside world has: the clock never runs back, a prune obeys
      its readings, and a walk visits every key once. */
  ghost predicate ChoiceOk(st: Stage, m: FabricState, c: Choice) {
    && m.now <= c.read <= c.now
    && (st.LeaseGrant? || st.Renew? ==> PruneOk(m.leases, c.keep, m.now, c.read))
    && Enumerates(c.order, Walked(st, m))
  }

  /** The stages a call may begin with. */
  predicate Entry(st: Stage) {
    match st
    case RegisterAdapter(_, _) | ReadAdapters | Beat(_) | ReadResources | LeaseLookup(_, _, _)
       | Renew(_, _) | FindLeases | AttachLookup(_, _) | ReleaseCheck(_) | EvictBeats(_)
       | RefreshScan(_) | Reconcile => true
    case Register(_, todo) => todo == []
    case UnregisterCheck(_, todo) => todo == []
    case _ => false
  }

  /** A thread begins a call, enters the lock it waits for, or runs its section. */
  datatype Event =
    | Begin(t: nat, stage: Stage)
    | Enter(t: nat)
    | Run(t: nat, choice: Choice)

  predicate Free(s: System, t: nat, want: Hold) {
    forall u :: u in s.threads && u != t ==>
      forall h :: h in Held(s.threads[u]) ==> !Conflict(h, want)
  }

  predicate AtSection(th: Thread) {
    th.At? && (th.inside || Needs(th.stage).None?)
  }

  ghost predicate Possible(s: System, e: Event) {
    && e.t in s.threads
    && var th := s.threads[e.t];
       match e
       case Begin(_, st) => th.Idle? && Entry(st)
       case Enter(_) => Wants(th).Some? && Free(s, e.t, Wants(th).value)
       case Run(_, c) => AtSection(th) && ChoiceOk(th.stage, s.shared, c)
  }

  function Next(s: System, e: Event): System
    requires e.t in s.threads && (!e.Begin? ==> s.threads[e.t].At?)
  {
    match e
    case Begin(t, st) => s.(threads := s.threads[t := At(st, false)])
    case Enter(t) => s.(threads := s.threads[t := s.threads[t].(inside := true)])
    case Run(t, c) =>
      var x := Exec(s.threads[t].stage, s.shared, c);
      System(x.shared.(now := c.now), Record(s.history, x.note), s.threads[t := x.next])
  }

  ghost predicate Init(s: System) {
    && s.shared.resources == map[] && s.shared.leases == map[] && s.shared.adapters == map[]
    && s.shared.attachments == map[] && s.shared.heartbeats == map[] && s.shared.nextLeaseId == 0
    && s.shared.managed == map[] && s.shared.live == map[]
    && s.history == History(map[], map[], map[], map[])
    && forall t :: t in s.threads ==> s.threads[t].Idle?
  }

  ghost predicate IsRun(s: System, es: seq<Event>)
    decreases |es|
  {
    es == [] || (Possible(s, es[0]) && IsRun(Next(s, es[0]), es[1..]))
  }

  ghost function After(s: System, es: seq<Event>): System
    requires IsRun(s, es)
    decreases |es|
  {
    if es == [] then s else After(Next(s, es[0]), es[1..])
  }
}
