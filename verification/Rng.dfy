/** The virtio-rng backend: guest requests served under a fixed-window quota. */
module Rng {
  import opened FabricTypes

  /** Clock ticks (nanoseconds) in a millisecond. */
  const MS: nat := 1_000_000
  const MAX_PERIOD_MS: nat := 65536

  datatype RngError =
    | SourceOpen
    | UnexpectedDescriptorCount(count: nat)
    | UnexpectedReadDescriptor
    | UnexpectedTimerValue
    | SourceAccess
    | SourceRead

  /** The configured period, when it is one the backend may run with. */
  function Validate(periodMs: nat): Result<nat, RngError> {
    if periodMs == 0 || periodMs > MAX_PERIOD_MS then Err(SourceOpen) else Ok(periodMs)
  }

  datatype Descriptor = Descriptor(len: nat, writeOnly: bool)

  /** What the entropy source answers: its lock is poisoned, the read fails, or it
      has `n` bytes at hand. */
  datatype Source = Poisoned | Broken | Gives(n: nat)

  /** A descriptor chain, with what its surroundings answer while it is served: the
      clock before the quota check, after a sleep and after the read, the source, and
      whether the used ring takes the entry. */
  datatype Request = Request(
    head: nat,
    descriptors: seq<Descriptor>,
    now: nat,
    wake: nat,
    source: Source,
    done: nat,
    ringTakes: bool)

  datatype Used = Used(head: nat, len: nat)

  datatype Timer = Timer(periodMs: nat, start: nat, maxBytes: nat, quota: nat)

  function Min(a: nat, b: nat): nat {
    if a < b then a else b
  }

  /** Elapsed time counts in whole milliseconds. */
  function Elapsed(t: Timer, now: nat): nat
    requires t.start <= now
  {
    (now - t.start) / MS
  }

  predicate Sleeps(t: Timer, r: Request) {
    t.start <= r.now && Elapsed(t, r.now) < t.periodMs && t.quota == 0
  }

  /** The timer once the window has been renewed, if it had to be. */
  function Turn(t: Timer, r: Request): Timer
    requires t.start <= r.now
  {
    if Elapsed(t, r.now) >= t.periodMs then t.(start := r.now, quota := t.maxBytes)
    else if Sleeps(t, r) then t.(start := r.wake, quota := t.maxBytes)
    else t
  }

  /** One request: the timer after it, and the bytes served or what went wrong. */
  function Serve(t: Timer, r: Request): (Timer, Result<nat, RngError>) {
    if |r.descriptors| != 1 then (t, Err(UnexpectedDescriptorCount(|r.descriptors|)))
    else if !r.descriptors[0].writeOnly then (t, Err(UnexpectedReadDescriptor))
    else if r.now < t.start then (t, Err(UnexpectedTimerValue))
    else
      var t' := Turn(t, r);
      match r.source
      case Poisoned => (t', Err(SourceAccess))
      case Broken => (t', Err(SourceRead))
      case Gives(n) =>
        var len := Min(n, Min(r.descriptors[0].len, t'.quota));
        (t'.(quota := t'.quota - len), Ok(len))
  }

  /** What a batch comes to: the lengths served, in order, and the answer. */
  datatype Batch = Batch(timer: Timer, lengths: seq<nat>, answer: Result<bool, RngError>)

  function Process(t: Timer, requests: seq<Request>): (b: Batch)
    ensures |b.lengths| <= |requests|
    decreases |requests|
  {
    if requests == [] then Batch(t, [], Ok(true))
    else
      var (t', served) := Serve(t, requests[0]);
      if served.Err? then Batch(t', [], Err(served.error))
      else
        var rest := Process(t', requests[1..]);
        rest.(lengths := [served.value] + rest.lengths)
  }

  /** The entries the used ring takes for the requests served. */
  function Returned(requests: seq<Request>, lengths: seq<nat>): seq<Used>
    requires |requests| == |lengths|
  {
    if requests == [] then []
    else
      var n := |requests| - 1;
      Returned(requests[..n], lengths[..n])
      + if requests[n].ringTakes then [Used(requests[n].head, lengths[n])] else []
  }

  /** After its first requests were served with `lengths`, the batch comes to `whole`
      when the others are processed from `t` on. */
  ghost predicate Continues(whole: Batch, t: Timer, others: seq<Request>, lengths: seq<nat>) {
    var rest := Process(t, others);
    whole == Batch(rest.timer, lengths + rest.lengths, rest.answer)
  }

  lemma ContinuesOn(whole: Batch, t: Timer, others: seq<Request>, lengths: seq<nat>, t': Timer, len: nat)
    requires others != [] && Continues(whole, t, others, lengths) && Serve(t, others[0]) == (t', Ok(len))
    ensures Continues(whole, t', others[1..], lengths + [len])
  {
    var later := Process(t', others[1..]).lengths;
    assert lengths + ([len] + later) == (lengths + [len]) + later;
  }

  lemma Ends(whole: Batch, t: Timer, others: seq<Request>, lengths: seq<nat>)
    requires Continues(whole, t, others, lengths)
    requires others == [] || Serve(t, others[0]).1.Err?
    ensures whole.lengths == lengths
    ensures if others == [] then whole.timer == t && whole.answer == Ok(true)
            else whole.timer == Serve(t, others[0]).0 && whole.answer == Err(Serve(t, others[0]).1.error)
  {
  }

  /** The ring holds what it held before, and the entries it took for a batch so far. */
  ghost predicate Filled(before: seq<Used>, used: seq<Used>, requests: seq<Request>, lengths: seq<nat>) {
    |requests| == |lengths| && used == before + Returned(requests, lengths)
  }

  lemma FilledOn(before: seq<Used>, used: seq<Used>, used': seq<Used>, requests: seq<Request>, lengths: seq<nat>,
                 r: Request, len: nat)
    requires Filled(before, used, requests, lengths)
    requires used' == used + if r.ringTakes then [Used(r.head, len)] else []
    ensures Filled(before, used', requests + [r], lengths + [len])
  {
    var more := if r.ringTakes then [Used(r.head, len)] else [];
    assert (requests + [r])[..|requests|] == requests && (lengths + [len])[..|lengths|] == lengths;
    assert (before + Returned(requests, lengths)) + more == before + (Returned(requests, lengths) + more);
  }

  /** The loop over a batch, before its `i`-th request. */
  ghost predicate Progress(whole: Batch, before: seq<Used>, t: Timer, used: seq<Used>, requests: seq<Request>, i: nat,
                           lengths: seq<nat>)
  {
    && i <= |requests|
    && Continues(whole, t, requests[i..], lengths)
    && Filled(before, used, requests[..i], lengths)
  }

  lemma ProgressBegins(t: Timer, used: seq<Used>, requests: seq<Request>)
    ensures Progress(Process(t, requests), used, t, used, requests, 0, [])
  {
    assert requests[0..] == requests;
  }

  lemma ProgressOn(whole: Batch, before: seq<Used>, t: Timer, used: seq<Used>, requests: seq<Request>, i: nat,
                   lengths: seq<nat>, t': Timer, used': seq<Used>, len: nat)
    requires i < |requests| && Progress(whole, before, t, used, requests, i, lengths)
    requires Serve(t, requests[i]) == (t', Ok(len))
    requires used' == used + if requests[i].ringTakes then [Used(requests[i].head, len)] else []
    ensures Progress(whole, before, t', used', requests, i + 1, lengths + [len])
  {
    ContinuesOn(whole, t, requests[i..], lengths, t', len);
    FilledOn(before, used, used', requests[..i], lengths, requests[i], len);
    assert requests[i..][1..] == requests[i + 1..] && requests[..i + 1] == requests[..i] + [requests[i]];
  }

  lemma ProgressEnds(whole: Batch, before: seq<Used>, t: Timer, used: seq<Used>, requests: seq<Request>, i: nat,
                     lengths: seq<nat>)
    requires Progress(whole, before, t, used, requests, i, lengths)
    requires i == |requests| || Serve(t, requests[i]).1.Err?
    ensures whole.lengths == lengths && i == |lengths|
    ensures if i == |requests| then whole.timer == t && whole.answer == Ok(true)
            else whole.timer == Serve(t, requests[i]).0 && whole.answer == Err(Serve(t, requests[i]).1.error)
    ensures Filled(before, used, requests[..|whole.lengths|], whole.lengths)
  {
    Ends(whole, t, requests[i..], lengths);
  }

  class Ring {
    var used: seq<Used>

    constructor ()
      ensures used == []
    {
      used := [];
    }
  }

  class RngBackend {
    const periodMs: nat
    const maxBytes: nat
    var periodStart: nat
    var quotaRemaining: nat

    function State(): Timer
      reads this
    {
      Timer(periodMs, periodStart, maxBytes, quotaRemaining)
    }

    constructor (periodMs: nat, maxBytes: nat, now: nat)
      ensures State() == Timer(periodMs, now, maxBytes, maxBytes)
    {
      this.periodMs := periodMs;
      this.maxBytes := maxBytes;
      periodStart := now;
      quotaRemaining := maxBytes;
    }

    method ServeOne(r: Request, ring: Ring) returns (answer: Result<nat, RngError>)
      modifies this, ring
      ensures (State(), answer) == Serve(old(State()), r)
      ensures ring.used == old(ring.used)
              + if answer.Ok? && r.ringTakes then [Used(r.head, answer.value)] else []
    {
      if |r.descriptors| != 1 {
        return Err(UnexpectedDescriptorCount(|r.descriptors|));
      }
      var toRead := r.descriptors[0].len;
      if !r.descriptors[0].writeOnly {
        return Err(UnexpectedReadDescriptor);
      }
      if r.now < periodStart {
        return Err(UnexpectedTimerValue);
      }
      var elapsed := (r.now - periodStart) / MS;
      if elapsed >= periodMs {
        periodStart := r.now;
        quotaRemaining := maxBytes;
      } else if quotaRemaining == 0 {
        periodStart := r.wake;
        quotaRemaining := maxBytes;
      }
      if quotaRemaining < toRead {
        toRead := quotaRemaining;
      }
      match r.source {
        case Poisoned => return Err(SourceAccess);
        case Broken => return Err(SourceRead);
        case Gives(n) =>
          var len := if n < toRead then n else toRead;
          quotaRemaining := quotaRemaining - len;
          if r.ringTakes {
            ring.used := ring.used + [Used(r.head, len)];
          }
          return Ok(len);
      }
    }

    /** Serves a batch until a request fails; entries of the earlier ones stay used. */
    method ProcessRequests(requests: seq<Request>, ring: Ring) returns (answer: Result<bool, RngError>)
      modifies this, ring
      ensures var b := Process(old(State()), requests);
              && State() == b.timer && answer == b.answer
              && Filled(old(ring.used), ring.used, requests[..|b.lengths|], b.lengths)
    {
      ghost var whole, before := Process(State(), requests), ring.used;
      ghost var lengths := [];
      ProgressBegins(State(), ring.used, requests);
      var i := 0;
      while i < |requests|
        invariant 0 <= i <= |requests|
        invariant Progress(whole, before, State(), ring.used, requests, i, lengths)
      {
        ghost var timer, used := State(), ring.used;
        var served := ServeOne(requests[i], ring);
        if served.Err? {
          ProgressEnds(whole, before, timer, used, requests, i, lengths);
          return Err(served.error);
        }
        ProgressOn(whole, before, timer, used, requests, i, lengths, State(), ring.used, served.value);
        lengths := lengths + [served.value];
        i := i + 1;
      }
      ProgressEnds(whole, before, State(), ring.used, requests, i, lengths);
      return Ok(true);
    }
  }
}
