/** What the quota of the virtio-rng backend guarantees over batches and runs. */
module RngRuns {
  import opened FabricTypes
  import opened Rng

  predicate Sound(t: Timer, clock: nat) {
    t.start <= clock && t.quota <= t.maxBytes
  }

  /** The clock never runs backwards, and a sleep lasts at least as long as asked. */
  predicate Prompt(t: Timer, clock: nat, r: Request) {
    && clock <= r.now <= r.done
    && (Sleeps(t, r) ==> r.now + (t.periodMs - Elapsed(t, r.now)) * MS <= r.wake <= r.done)
  }

  /** The requests of a batch that are reached are served in the order of the clock. */
  predicate OnTime(t: Timer, clock: nat, requests: seq<Request>)
    decreases |requests|
  {
    requests != [] ==>
      && Prompt(t, clock, requests[0])
      && (Serve(t, requests[0]).1.Ok? ==> OnTime(Serve(t, requests[0]).0, requests[0].done, requests[1..]))
  }

  function ClockAfter(t: Timer, clock: nat, requests: seq<Request>): nat
    decreases |requests|
  {
    if requests == [] then clock
    else if Serve(t, requests[0]).1.Err? then requests[0].done
    else ClockAfter(Serve(t, requests[0]).0, requests[0].done, requests[1..])
  }

  // ------------------------------------------------------------------ batches

  /** What is wrong with a request, whatever the timer says. */
  function Fault(r: Request): Option<RngError> {
    if |r.descriptors| != 1 then Some(UnexpectedDescriptorCount(|r.descriptors|))
    else if !r.descriptors[0].writeOnly then Some(UnexpectedReadDescriptor)
    else if r.source.Poisoned? then Some(SourceAccess)
    else if r.source.Broken? then Some(SourceRead)
    else None
  }

  /** A backend runs with periods of one to 65536 milliseconds. */
  lemma ValidateDecides(periodMs: nat)
    ensures Validate(periodMs) == if 1 <= periodMs <= 65536 then Ok(periodMs) else Err(SourceOpen)
  {
  }

  /** What a served request leaves in the used ring, and that a full ring takes nothing. */
  function EntryOf(r: Request, len: nat): seq<Used> {
    if r.ringTakes then [Used(r.head, len)] else []
  }

  function EntriesFrom(requests: seq<Request>, lengths: seq<nat>): seq<Used>
    requires |requests| == |lengths|
  {
    if requests == [] then [] else EntryOf(requests[0], lengths[0]) + EntriesFrom(requests[1..], lengths[1..])
  }

  /** The entries are those of the served requests from the first to the last. */
  lemma {:induction false} ReturnedInOrder(requests: seq<Request>, lengths: seq<nat>)
    requires |requests| == |lengths|
    ensures Returned(requests, lengths) == EntriesFrom(requests, lengths)
  {
    if |requests| > 1 {
      var n := |requests| - 1;
      ReturnedInOrder(requests[..n], lengths[..n]);
      ReturnedInOrder(requests[1..], lengths[1..]);
      ReturnedInOrder(requests[1..n], lengths[1..n]);
      assert requests[..n][1..] == requests[1..n] == requests[1..][..n - 1];
      assert lengths[..n][1..] == lengths[1..n] == lengths[1..][..n - 1];
    }
  }

  lemma ServeKeepsSound(t: Timer, clock: nat, r: Request)
    requires Sound(t, clock) && Prompt(t, clock, r)
    ensures Sound(Serve(t, r).0, r.done)
    ensures Serve(t, r).0.periodMs == t.periodMs && Serve(t, r).0.maxBytes == t.maxBytes
  {
  }

  /** A batch serves exactly the requests before its first faulty one and answers with
      that fault: the timer never fails a request. */
  lemma {:induction false} StopsAtFirstFault(t: Timer, clock: nat, requests: seq<Request>)
    requires Sound(t, clock) && OnTime(t, clock, requests)
    ensures var b := Process(t, requests);
            && (forall i :: 0 <= i < |b.lengths| ==> Fault(requests[i]).None?)
            && (if |b.lengths| == |requests| then b.answer == Ok(true)
                else Fault(requests[|b.lengths|]).Some? && b.answer == Err(Fault(requests[|b.lengths|]).value))
    decreases |requests|
  {
    if requests != [] {
      ServeKeepsSound(t, clock, requests[0]);
      if Serve(t, requests[0]).1.Ok? {
        StopsAtFirstFault(Serve(t, requests[0]).0, requests[0].done, requests[1..]);
      }
    }
  }

  /** The timer as the `i`-th request of a batch finds it. */
  function TimerBefore(t: Timer, requests: seq<Request>, i: nat): Timer
    requires i <= |requests|
    decreases i
  {
    if i == 0 then t else TimerBefore(Serve(t, requests[0]).0, requests[1..], i - 1)
  }

  /** Exactly the least of what the descriptor holds, what is left of the window and what
      the source has; so never nothing where something was asked for and at hand. */
  predicate FairLength(t: Timer, r: Request, len: nat) {
    && |r.descriptors| == 1 && r.source.Gives? && t.start <= r.now
    && len <= r.descriptors[0].len && len <= r.source.n
    && len <= Turn(t, r).quota <= t.maxBytes
    && (len == r.descriptors[0].len || len == r.source.n || len == Turn(t, r).quota)
    && (t.maxBytes >= 1 && r.descriptors[0].len >= 1 && r.source.n >= 1 ==> len >= 1)
  }

  /** What a request takes is gone from the window for the next one. */
  predicate Draws(t: Timer, r: Request, len: nat, next: Timer) {
    t.start <= r.now && next.start == Turn(t, r).start && next.quota + len == Turn(t, r).quota
  }

  lemma ServeIsFair(t: Timer, clock: nat, r: Request)
    requires Sound(t, clock) && Prompt(t, clock, r) && Serve(t, r).1.Ok?
    ensures FairLength(t, r, Serve(t, r).1.value) && Draws(t, r, Serve(t, r).1.value, Serve(t, r).0)
  {
  }

  /** Each length served is fair to the quota that is left when its request is reached,
      and is taken off it; the quota stays between zero and the maximum. */
  lemma {:induction false} LengthsAreFair(t: Timer, clock: nat, requests: seq<Request>)
    requires Sound(t, clock) && OnTime(t, clock, requests)
    ensures var b := Process(t, requests);
            && b.timer.quota <= b.timer.maxBytes == t.maxBytes
            && forall i :: 0 <= i < |b.lengths| ==>
                 && FairLength(TimerBefore(t, requests, i), requests[i], b.lengths[i])
                 && Draws(TimerBefore(t, requests, i), requests[i], b.lengths[i], TimerBefore(t, requests, i + 1))
    decreases |requests|
  {
    if requests != [] {
      var r := requests[0];
      ServeKeepsSound(t, clock, r);
      if Serve(t, r).1.Ok? {
        var t', b := Serve(t, r).0, Process(t, requests);
        ServeIsFair(t, clock, r);
        LengthsAreFair(t', r.done, requests[1..]);
        assert TimerBefore(t, requests, 1) == t';
        assert forall i :: 0 < i < |b.lengths| ==>
          b.lengths[i] == b.lengths[1..][i - 1] && requests[i] == requests[1..][i - 1];
      }
    }
  }

  // --------------------------------------------------------------- rate bound

  /** Ticks in a window. */
  function Window(t: Timer): nat {
    t.periodMs * MS
  }

  /** A window is renewed on arrival exactly when a full period has passed since it
      began, so truncation neither delays nor hastens it; until then a request draws on
      what is left, and sleeps only when nothing is. */
  lemma RenewedExactlyAfterAPeriod(t: Timer, clock: nat, r: Request)
    requires Sound(t, clock) && Prompt(t, clock, r)
    ensures Sleeps(t, r) <==> r.now < t.start + Window(t) && t.quota == 0
    ensures Turn(t, r) == if r.now >= t.start + Window(t) then t.(start := r.now, quota := t.maxBytes)
                          else if t.quota > 0 then t
                          else t.(start := r.wake, quota := t.maxBytes)
  {
  }

  /** Window starts are at least one period apart, reset and sleep alike, although
      elapsed time is truncated to whole milliseconds. */
  lemma WindowsAreApart(t: Timer, clock: nat, r: Request)
    requires Sound(t, clock) && Prompt(t, clock, r) && Turn(t, r) != t
    ensures Turn(t, r).quota == t.maxBytes
    ensures t.start + Window(t) <= Turn(t, r).start <= r.done && r.now <= Turn(t, r).start
  {
  }

  /** The bytes of a batch served at instants from `a` to `b`. */
  function BytesOf(requests: seq<Request>, lengths: seq<nat>, a: nat, b: nat): nat
    requires |lengths| <= |requests|
    decreases |lengths|
  {
    if lengths == [] then 0
    else (if a <= requests[0].done <= b then lengths[0] else 0) + BytesOf(requests[1..], lengths[1..], a, b)
  }

  /** The bytes of a run of batches served at instants from `a` to `b`. */
  function Bytes(t: Timer, batches: seq<seq<Request>>, a: nat, b: nat): nat
    decreases |batches|
  {
    if batches == [] then 0
    else
      var first := Process(t, batches[0]);
      BytesOf(batches[0], first.lengths, a, b) + Bytes(first.timer, batches[1..], a, b)
  }

  predicate RunOnTime(t: Timer, clock: nat, batches: seq<seq<Request>>)
    decreases |batches|
  {
    batches != [] ==>
      && OnTime(t, clock, batches[0])
      && RunOnTime(Process(t, batches[0]).timer, ClockAfter(t, clock, batches[0]), batches[1..])
  }

  /** How many windows can start within `span` ticks of another. */
  function Windows(t: Timer, span: nat): nat
    requires t.periodMs >= 1
  {
    span / Window(t)
  }

  /** The most that can still be served from `a` to `b`: in a window of the interval,
      what is left of it and all later ones; before the interval, one more window. */
  function Limit(t: Timer, clock: nat, a: nat, b: nat): nat
    requires t.periodMs >= 1 && a <= b
  {
    if t.start > b then 0
    else if t.start >= a then t.quota + t.maxBytes * Windows(t, b - t.start)
    else if clock >= a then t.quota + t.maxBytes * (Windows(t, b - a) + 1)
    else t.maxBytes * (Windows(t, b - a) + 2)
  }

  lemma WindowsOf(t: Timer, less: nat, more: nat)
    requires t.periodMs >= 1 && less <= more
    ensures t.maxBytes * Windows(t, less) <= t.maxBytes * Windows(t, more)
    ensures less + Window(t) <= more ==> t.maxBytes + t.maxBytes * Windows(t, less) <= t.maxBytes * Windows(t, more)
  {
    Quotients(less, more, Window(t), Windows(t, less), Windows(t, more));
    Multiples(t.maxBytes, Windows(t, less), Windows(t, more));
  }

  lemma Multiples(m: nat, x: nat, y: nat)
    requires x <= y
    ensures m * x <= m * y && (x + 1 <= y ==> m + m * x <= m * y)
  {
    Scaled(m, x, y);
    if x + 1 <= y {
      Scaled(m, x + 1, y);
      assert m * (x + 1) == m * x + m;
    }
  }

  lemma Scaled(m: nat, x: nat, y: nat)
    requires x <= y
    ensures m * x <= m * y
  {
    assert m * y == m * x + m * (y - x);
  }

  lemma Sandwich(x: nat, w: nat, q: nat)
    requires w >= 1 && q == x / w
    ensures w * q <= x < w * (q + 1)
  {
    assert x == w * q + x % w;
    assert w * (q + 1) == w * q + w;
  }

  lemma Below(x: nat, y: nat, w: nat)
    requires w * x < w * (y + 1)
    ensures x <= y
  {
    if x > y {
      Scaled(w, y + 1, x);
    }
  }

  lemma Quotients(less: nat, more: nat, w: nat, x: nat, y: nat)
    requires less <= more && w >= 1 && x == less / w && y == more / w
    ensures x <= y && (less + w <= more ==> x + 1 <= y)
  {
    Sandwich(less, w, x);
    Sandwich(more, w, y);
    Below(x, y, w);
    assert w * (x + 1) == w * x + w;
    if less + w <= more {
      Below(x + 1, y, w);
    }
  }

  /** With the same window, what is served is taken from what is left. */
  lemma SameWindow(t: Timer, t': Timer, clock: nat, done: nat, len: nat, a: nat, b: nat)
    requires t.periodMs >= 1 && a <= b && Sound(t, clock) && clock <= done
    requires len <= t.quota && t' == t.(quota := t.quota - len)
    ensures (if a <= done <= b then len else 0) + Limit(t', done, a, b) <= Limit(t, clock, a, b)
  {
    assert t.maxBytes * (Windows(t, b - a) + 2) == t.maxBytes * (Windows(t, b - a) + 1) + t.maxBytes;
  }

  /** A fresh window starts a period later, with a full quota. */
  lemma NextWindow(t: Timer, t': Timer, clock: nat, done: nat, len: nat, a: nat, b: nat)
    requires t.periodMs >= 1 && a <= b && Sound(t, clock) && clock <= t'.start <= done
    requires t.start + Window(t) <= t'.start
    requires len <= t.maxBytes && t' == t.(start := t'.start, quota := t.maxBytes - len)
    ensures (if a <= done <= b then len else 0) + Limit(t', done, a, b) <= Limit(t, clock, a, b)
  {
    var windows := Windows(t, b - a);
    assert t.maxBytes * (windows + 2) == t.maxBytes * (windows + 1) + t.maxBytes;
    assert t.maxBytes * (windows + 1) == t.maxBytes * windows + t.maxBytes;
    if a <= t'.start <= b {
      WindowsOf(t, b - t'.start, if t.start >= a then b - t.start else b - a);
    }
  }

  lemma ServeWithinLimit(t: Timer, clock: nat, r: Request, a: nat, b: nat)
    requires t.periodMs >= 1 && a <= b && Sound(t, clock) && Prompt(t, clock, r)
    ensures var (t', served) := Serve(t, r);
            t'.periodMs == t.periodMs &&
            (if served.Ok? && a <= r.done <= b then served.value else 0) + Limit(t', r.done, a, b)
            <= Limit(t, clock, a, b)
  {
    var (t', served) := Serve(t, r);
    var len := if served.Ok? then served.value else 0;
    if t'.start == t.start {
      if |r.descriptors| == 1 && r.descriptors[0].writeOnly && Turn(t, r) != t {
        WindowsAreApart(t, clock, r);
      }
      SameWindow(t, t', clock, r.done, len, a, b);
    } else {
      WindowsAreApart(t, clock, r);
      NextWindow(t, t', clock, r.done, len, a, b);
    }
  }

  lemma {:induction false} BatchWithinLimit(t: Timer, clock: nat, requests: seq<Request>, a: nat, b: nat)
    requires t.periodMs >= 1 && a <= b && Sound(t, clock) && OnTime(t, clock, requests)
    ensures var p := Process(t, requests);
            && p.timer.periodMs == t.periodMs && p.timer.maxBytes == t.maxBytes
            && Sound(p.timer, ClockAfter(t, clock, requests))
            && BytesOf(requests, p.lengths, a, b) + Limit(p.timer, ClockAfter(t, clock, requests), a, b)
               <= Limit(t, clock, a, b)
    decreases |requests|
  {
    if requests != [] {
      var r := requests[0];
      ServeKeepsSound(t, clock, r);
      ServeWithinLimit(t, clock, r, a, b);
      if Serve(t, r).1.Ok? {
        BatchWithinLimit(Serve(t, r).0, r.done, requests[1..], a, b);
        var p := Process(t, requests);
        assert p.lengths[1..] == Process(Serve(t, r).0, requests[1..]).lengths;
      }
    }
  }

  lemma {:induction false} RunWithinLimit(t: Timer, clock: nat, batches: seq<seq<Request>>, a: nat, b: nat)
    requires t.periodMs >= 1 && a <= b && Sound(t, clock) && RunOnTime(t, clock, batches)
    ensures Bytes(t, batches, a, b) <= Limit(t, clock, a, b)
    decreases |batches|
  {
    if batches != [] {
      BatchWithinLimit(t, clock, batches[0], a, b);
      RunWithinLimit(Process(t, batches[0]).timer, ClockAfter(t, clock, batches[0]), batches[1..], a, b);
    }
  }

  lemma WindowsInMilliseconds(t: Timer, ms: nat)
    requires t.periodMs >= 1
    ensures Windows(t, ms * MS) == ms / t.periodMs
  {
    var p, q := t.periodMs, ms / t.periodMs;
    assert ms == q * p + ms % p;
    assert ms * MS == q * (p * MS) + (ms % p) * MS;
    assert (ms % p) * MS < p * MS;
    QuotientIs(ms * MS, p * MS, q, (ms % p) * MS);
  }

  lemma QuotientIs(x: nat, w: nat, q: nat, r: nat)
    requires w >= 1 && x == q * w + r && r < w
    ensures x / w == q
  {
    var k := x / w;
    assert x == k * w + x % w;
    if k > q {
      Scaled(w, q + 1, k);
    } else if k < q {
      Scaled(w, k + 1, q);
    }
  }

  lemma LimitIsBounded(t: Timer, clock: nat, a: nat, b: nat)
    requires t.periodMs >= 1 && Sound(t, clock) && a <= b
    ensures Limit(t, clock, a, b) <= t.maxBytes * (Windows(t, b - a) + 2)
  {
    var windows, m := Windows(t, b - a), t.maxBytes;
    assert m * (windows + 2) == m * (windows + 1) + m && m * (windows + 1) == m * windows + m;
    if a <= t.start <= b {
      WindowsOf(t, b - t.start, b - a);
    }
  }

  lemma TickBound(t: Timer, clock: nat, batches: seq<seq<Request>>, a: nat, b: nat)
    requires t.periodMs >= 1 && Sound(t, clock) && RunOnTime(t, clock, batches) && a <= b
    ensures Bytes(t, batches, a, b) <= t.maxBytes * (Windows(t, b - a) + 2)
  {
    RunWithinLimit(t, clock, batches, a, b);
    LimitIsBounded(t, clock, a, b);
  }

  /** Over any run and any interval of `ms` milliseconds, the bytes served are at most
      what one window allows, times the periods in the interval and two more. */
  lemma RateBound(t: Timer, clock: nat, batches: seq<seq<Request>>, a: nat, b: nat, ms: nat)
    requires Validate(t.periodMs).Ok? && Sound(t, clock) && RunOnTime(t, clock, batches)
    requires b == a + ms * MS
    ensures Bytes(t, batches, a, b) <= t.maxBytes * (ms / t.periodMs + 2)
  {
    TickBound(t, clock, batches, a, b);
    WindowsInMilliseconds(t, ms);
  }

  /** A well-formed request that takes all it may get, and is served at `done`. */
  function Greedy(maxBytes: nat, now: nat, done: nat): Request {
    Request(0, [Descriptor(maxBytes, true)], now, done, Gives(maxBytes), done, true)
  }

  /** One greedy request at each of `n` instants, a window apart. */
  function Train(maxBytes: nat, at: nat, window: nat, n: nat): (batches: seq<seq<Request>>)
    ensures |batches| == n
    decreases n
  {
    if n == 0 then [] else [[Greedy(maxBytes, at, at)]] + Train(maxBytes, at + window, window, n - 1)
  }

  /** A request that takes a whole window, whether it is left from before or begins now. */
  lemma GreedyTakesAll(t: Timer, clock: nat, now: nat, done: nat)
    requires t.periodMs >= 1 && t.maxBytes >= 1 && t.start <= clock <= now <= done
    requires now == t.start + Window(t) || (now == t.start && t.quota == t.maxBytes)
    ensures var r, t' := Greedy(t.maxBytes, now, done), t.(start := now, quota := 0);
            && Serve(t, r) == (t', Ok(t.maxBytes)) && Process(t, [r]) == Batch(t', [t.maxBytes], Ok(true))
            && OnTime(t, clock, [r]) && ClockAfter(t, clock, [r]) == done
  {
    var r, t' := Greedy(t.maxBytes, now, done), t.(start := now, quota := 0);
    assert Elapsed(t, now) == if now == t.start then 0 else t.periodMs;
    assert Serve(t, r) == (t', Ok(t.maxBytes));
    assert [r][1..] == [];
    assert Process(t', []) == Batch(t', [], Ok(true));
  }

  lemma FirstBatch(t: Timer, clock: nat, r: Request, t': Timer, len: nat, others: seq<seq<Request>>, a: nat, b: nat)
    requires OnTime(t, clock, [r]) && ClockAfter(t, clock, [r]) == r.done
    requires Process(t, [r]) == Batch(t', [len], Ok(true))
    requires RunOnTime(t', r.done, others) && a <= r.done <= b
    ensures RunOnTime(t, clock, [[r]] + others)
    ensures Bytes(t, [[r]] + others, a, b) == len + Bytes(t', others, a, b)
  {
    assert ([[r]] + others)[1..] == others;
    assert BytesOf([r], [len], a, b) == len + BytesOf([r][1..], [len][1..], a, b);
  }

  lemma {:induction false} TrainTakesAll(t: Timer, clock: nat, at: nat, n: nat, a: nat, b: nat)
    requires t.periodMs >= 1 && t.maxBytes >= 1 && t.start <= clock <= at && at == t.start + Window(t)
    requires a <= at && (n > 0 ==> at + (n - 1) * Window(t) <= b)
    ensures RunOnTime(t, clock, Train(t.maxBytes, at, Window(t), n))
    ensures Bytes(t, Train(t.maxBytes, at, Window(t), n), a, b) == t.maxBytes * n
    decreases n
  {
    if n > 0 {
      var t', next := t.(start := at, quota := 0), at + Window(t);
      assert (n - 1) * Window(t) == if n == 1 then 0 else Window(t) + (n - 2) * Window(t);
      GreedyTakesAll(t, clock, at, at);
      TrainTakesAll(t', at, next, n - 1, a, b);
      FirstBatch(t, clock, Greedy(t.maxBytes, at, at), t', t.maxBytes,
                 Train(t.maxBytes, next, Window(t), n - 1), a, b);
      assert t.maxBytes * n == t.maxBytes + t.maxBytes * (n - 1);
    }
  }

  lemma WholePeriodsFit(ms: nat, periodMs: nat)
    requires periodMs >= 1
    ensures (ms / periodMs) * (periodMs * MS) <= ms * MS
  {
    var k := ms / periodMs;
    assert k * periodMs <= ms;
    assert k * (periodMs * MS) == (k * periodMs) * MS;
  }

  /** A slow read that ends just as the next window begins, and every window from there
      on taken as it begins. */
  function Fullest(t: Timer, n: nat): seq<seq<Request>> {
    var a := t.start + Window(t);
    [[Greedy(t.maxBytes, t.start, a)]] + Train(t.maxBytes, a, Window(t), n)
  }

  lemma FullestTakesAll(t: Timer, n: nat, a: nat, b: nat)
    requires t.periodMs >= 1 && t.maxBytes >= 1 && t.quota == t.maxBytes && a == t.start + Window(t)
    requires n > 0 && a + (n - 1) * Window(t) <= b
    ensures RunOnTime(t, t.start, Fullest(t, n)) && Bytes(t, Fullest(t, n), a, b) == t.maxBytes * (n + 1)
  {
    var t', others := t.(quota := 0), Train(t.maxBytes, a, Window(t), n);
    LastStartIsLater(n, Window(t), a, b);
    GreedyTakesAll(t, t.start, t.start, a);
    TrainTakesAll(t', a, a, n, a, b);
    FirstBatch(t, t.start, Greedy(t.maxBytes, t.start, a), t', t.maxBytes, others, a, b);
    assert t.maxBytes * (n + 1) == t.maxBytes + t.maxBytes * n;
  }

  lemma LastStartIsLater(n: nat, window: nat, a: nat, b: nat)
    requires n > 0 && a + (n - 1) * window <= b
    ensures a <= b
  {
  }

  /** The bound is reached over intervals of every length, for every valid period and
      quota, by a run from a fresh backend. */
  lemma BoundIsReached(t: Timer, a: nat, b: nat, ms: nat)
    requires Validate(t.periodMs).Ok? && t.maxBytes >= 1 && t.quota == t.maxBytes
    requires a == t.start + Window(t) && b == a + ms * MS
    ensures var batches := Fullest(t, ms / t.periodMs + 1);
            RunOnTime(t, t.start, batches) && Bytes(t, batches, a, b) == t.maxBytes * (ms / t.periodMs + 2)
  {
    WholePeriodsFit(ms, t.periodMs);
    FullestTakesAll(t, ms / t.periodMs + 1, a, b);
  }
}
