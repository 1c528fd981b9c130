/** Calls complete: left alone, the threads of any state run to the end of their
    calls, whichever thread the scheduler picks. */
module Completion {
  import opened FabricTypes
  import opened FabricState
  import opened Interleaving
  import LockOrder

  /** The scans a call still has to make; a scan sets how long the rest will be. */
  function Scans(th: Thread): nat {
    if th.Idle? then 0
    else
      match th.stage
      case EvictBeats(_) => 2
      case EvictScan(_) | RefreshScan(_) | Reconcile => 1
      case _ => 0
  }

  /** The sections a call still has to run, its scans aside. */
  function Sections(st: Stage): (n: nat)
    ensures n >= 1
  {
    match st
    case Register(_, todo) => 1 + 2 * |todo|
    case UnregisterCheck(_, todo) => 2 + 2 * |todo|
    case UnregisterRemove(_, todo) => 1 + 2 * |todo|
    case ReadAdapters | LeaseLookup(_, _, _) | FindLeases => 2
    case AttachLookup(_, _) => 8
    case AttachCheck(_, _, _) => 7
    case AttachAdapter(_, _, _) => 6
    case VmCheck(_, _, _) => 5
    case VmProbe(_, _, _) => 4
    case VmLaunch(_, _, _) => 3
    case VmRecord(_, _, _) | StoreInsert(_, _, _) => 2
    case GpuReserve(_, _, second) => if second then 2 else 3
    case ReleaseCheck(_) => 6
    case ReleaseTake(_) => 5
    case ReleaseLookup(_, _) => 4
    case ReleaseAdapter(_, _, _) => 3
    case ReleaseDetach(_, _) => 2
    case ReconcileRemove(_, rest) => 2 + 2 * |rest|
    case ReconcileForget(_, rest) => 1 + 2 * |rest|
    case _ => 1
  }

  function Steps(th: Thread): nat {
    if th.Idle? then 0 else 2 * Sections(th.stage) - (if th.inside then 1 else 0)
  }

  ghost function Sum(threads: map<nat, Thread>, f: Thread -> nat): nat
    decreases |threads|
  {
    if threads == map[] then 0
    else
      var t :| t in threads;
      f(threads[t]) + Sum(threads - {t}, f)
  }

  lemma {:induction false} SumWithout(threads: map<nat, Thread>, f: Thread -> nat, t: nat)
    requires t in threads
    ensures Sum(threads, f) == f(threads[t]) + Sum(threads - {t}, f)
    decreases |threads|
  {
    var u :| u in threads && Sum(threads, f) == f(threads[u]) + Sum(threads - {u}, f);
    if u != t {
      SumWithout(threads - {u}, f, t);
      SumWithout(threads - {t}, f, u);
      assert threads - {u} - {t} == threads - {t} - {u};
    }
  }

  lemma SumUpdate(threads: map<nat, Thread>, f: Thread -> nat, t: nat, th: Thread)
    requires t in threads
    ensures Sum(threads[t := th], f) == Sum(threads, f) - f(threads[t]) + f(th)
  {
    SumWithout(threads, f, t);
    SumWithout(threads[t := th], f, t);
    assert threads[t := th] - {t} == threads - {t};
  }

  /** The measure of a state, most significant part first. */
  ghost predicate Descends(s: System, s': System) {
    || Sum(s'.threads, Scans) < Sum(s.threads, Scans)
    || (Sum(s'.threads, Scans) == Sum(s.threads, Scans) && Sum(s'.threads, Steps) < Sum(s.threads, Steps))
  }

  predicate Nearer(next: Thread, st: Stage) {
    || Scans(next) < Scans(At(st, false))
    || (Scans(next) == Scans(At(st, false)) && Steps(next) < 2 * Sections(st) - 1)
  }

  lemma LookNearer(st: Stage, m: FabricState, c: Choice)
    requires OnlyReads(st)
    ensures Nearer(Look(st, m, c), st)
  {
    if st.AttachAdapter? {
      AdapterNearer(st, m, c);
    }
  }

  lemma AdapterNearer(st: Stage, m: FabricState, c: Choice)
    requires st.AttachAdapter?
    ensures Nearer(AdapterSection(st.adapter, st.lease, st.resource, m, c), st)
  {
  }

  lemma SectionNearer(st: Stage, m: FabricState, c: Choice)
    ensures Nearer(Exec(st, m, c).next, st)
  {
    if OnlyReads(st) {
      LookNearer(st, m, c);
    }
  }

  /** Every step of an unfinished call, whoever takes it, brings the calls nearer
      their end: no run goes on for ever without a new call beginning. */
  lemma EveryStepDescends(s: System, e: Event)
    requires Possible(s, e) && !e.Begin?
    ensures Descends(s, Next(s, e))
  {
    var th := s.threads[e.t];
    var th' := Next(s, e).threads[e.t];
    SumUpdate(s.threads, Scans, e.t, th');
    SumUpdate(s.threads, Steps, e.t, th');
    if e.Run? {
      SectionNearer(th.stage, s.shared, e.choice);
    }
  }

  /** Every call completes: from any state a run without new calls leads to a
      state in which every thread is idle. */
  lemma {:induction false} Drains(s: System) returns (es: seq<Event>)
    ensures IsRun(s, es) && forall e :: e in es ==> !e.Begin?
    ensures forall t :: t in After(s, es).threads ==> After(s, es).threads[t].Idle?
    decreases Sum(s.threads, Scans), Sum(s.threads, Steps)
  {
    if t :| t in s.threads && s.threads[t].At? {
      var e := LockOrder.NeverDeadlocked(s, t);
      EveryStepDescends(s, e);
      var rest := Drains(Next(s, e));
      es := [e] + rest;
      assert es[1..] == rest;
    } else {
      es := [];
    }
  }
}
