/** Mutual exclusion, the lock order, and the absence of deadlock. */
module LockOrder {
  import opened FabricTypes
  import opened FabricState
  import opened Interleaving

  /** No two threads hold conflicting locks. */
  ghost predicate Apart(s: System) {
    forall t, u :: t in s.threads && u in s.threads && t != u ==>
      forall a, b :: a in Held(s.threads[t]) && b in Held(s.threads[u]) ==> !Conflict(a, b)
  }

  /** Running a section only gives locks up: the next stage keeps a part of what was held. */
  lemma LooksOnlyRelease(st: Stage, m: FabricState, c: Choice)
    requires OnlyReads(st)
    ensures Held(Look(st, m, c)) <= Held(At(st, true))
  {
  }

  lemma SectionsOnlyRelease(st: Stage, m: FabricState, c: Choice)
    ensures Held(Exec(st, m, c).next) <= Held(At(st, true))
  {
    if OnlyReads(st) {
      LooksOnlyRelease(st, m, c);
    }
  }

  lemma StepKeepsApart(s: System, e: Event)
    requires Apart(s) && Possible(s, e)
    ensures Apart(Next(s, e))
  {
    match e
    case Begin(t, st) => assert Held(At(st, false)) == {};
    case Enter(t) =>
      var th := s.threads[t];
      assert Held(th.(inside := true)) == Held(th) + {Wants(th).value};
    case Run(t, c) =>
      var st := s.threads[t].stage;
      SectionsOnlyRelease(st, s.shared, c);
      assert Held(s.threads[t]) == Held(At(st, true));
  }

  lemma {:induction false} RunKeepsApart(s: System, es: seq<Event>)
    requires Apart(s) && IsRun(s, es)
    ensures Apart(After(s, es))
    decreases |es|
  {
    if es != [] {
      StepKeepsApart(s, es[0]);
      RunKeepsApart(Next(s, es[0]), es[1..]);
    }
  }

  /** Every stage asks for a lock above everything it already holds. */
  lemma OrderIsKept(st: Stage, h: Hold)
    requires Needs(st).Some? && h in Outer(st)
    ensures Rank(h.lock) < Rank(Needs(st).value.lock)
  {
  }

  /** The thread can go on at once: it waits for no lock, or nobody at all holds
      (in any mode) the lock it waits for. */
  ghost predicate Unblocked(s: System, t: nat) {
    && t in s.threads && s.threads[t].At?
    && (Wants(s.threads[t]).Some? ==>
          forall u, h :: u in s.threads && h in Held(s.threads[u]) ==> h.lock != Wants(s.threads[t]).value.lock)
  }

  /** Follow the chain of waiting: each hop goes to a thread waiting for a higher lock. */
  lemma {:induction false} FindUnblocked(s: System, t: nat, floor: nat) returns (w: nat)
    requires t in s.threads && s.threads[t].At?
    requires Wants(s.threads[t]).Some? ==> floor <= Rank(Wants(s.threads[t]).value.lock)
    requires floor <= 3
    ensures Unblocked(s, w)
    decreases 3 - floor
  {
    w := t;
    if Wants(s.threads[t]).Some? && !Unblocked(s, t) {
      var l := Wants(s.threads[t]).value.lock;
      var u, h :| u in s.threads && h in Held(s.threads[u]) && h.lock == l;
      var th := s.threads[u];
      if Wants(th).Some? {
        OrderIsKept(th.stage, h);
        w := FindUnblocked(s, u, Rank(l) + 1);
      } else {
        w := u;
      }
    }
  }

  // ------------------------------------------------------------- progress

  ghost function ToSeq(ids: set<string>): (order: seq<string>)
    ensures Enumerates(order, ids)
  {
    if ids == {} then []
    else
      var id :| id in ids;
      var rest := ToSeq(ids - {id});
      assert forall x :: x in [id] + rest <==> x == id || x in rest;
      [id] + rest
  }

  /** Whatever the state, the outside world has a choice that lets a section run. */
  lemma ChoiceExists(st: Stage, m: FabricState) returns (c: Choice)
    ensures ChoiceOk(st, m, c)
  {
    var keep := set rid | rid in m.leases && m.leases[rid].expiresAt > m.now;
    var order := ToSeq(Walked(st, m));
    c := Choice(m.now, m.now, keep, Host(true, true, true, true, true, true, true, true), order);
  }

  /** There is no deadlock. In any state with an unfinished call, some unfinished
      thread can step; and it is one that no other thread stands in the way of,
      so this holds whether a lock prefers readers or writers. */
  lemma NeverDeadlocked(s: System, t: nat) returns (e: Event)
    requires t in s.threads && s.threads[t].At?
    ensures Possible(s, e) && !e.Begin? && Unblocked(s, e.t)
  {
    var w := FindUnblocked(s, t, 0);
    var th := s.threads[w];
    if Wants(th).Some? {
      e := Enter(w);
    } else {
      var c := ChoiceExists(th.stage, s.shared);
      e := Run(w, c);
    }
  }
}
