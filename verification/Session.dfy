/** One RPC connection: frames in, one response per request out, over a live fabric. */
module Session {
  import opened FabricTypes
  import opened FabricState
  import opened Frames
  import opened Rpc
  import F = Fabric

  /** How the accept loop ends: the peer finished, it closed the connection, or the
      transport failed. */
  datatype Ending = Finished | ClosedByPeer | Failed(error: TransportError)

  /** Where a session stands: bytes sent, the fabric, and how it ended. */
  datatype Outcome = Outcome(sent: seq<byte>, fabric: FabricState, ending: Ending)

  datatype Wire = Wire(requests: Codec<RpcRequest>, responses: Codec<RpcResponse>)

  /** What stays the same for a session. `env` says what surrounds each request, and
      `closed` whether the peer has closed the connection when reading fails. */
  datatype Setting = Setting(wire: Wire, auth: AuthProvider, env: nat -> Surroundings, closed: bool, binary: string)

  function EndingOf(error: TransportError, closed: bool): Ending {
    if error == ConnectionClosed then Finished else if closed then ClosedByPeer else Failed(error)
  }

  /** The answer to the `i`-th request of a session. */
  function AnswerAt(s: Setting, m: FabricState, request: RpcRequest, i: nat): (RpcResponse, FabricState) {
    Answer(s.auth, Waited(m, s.env(i).ticks), request, s.env(i).host, s.binary)
  }

  /** The loop: read a frame, authorize and dispatch, write the response. */
  function Serve(s: Setting, m: FabricState, stream: seq<byte>, i: nat): Outcome
    decreases |stream|
  {
    var read := ReadOne(s.wire.requests, stream);
    if read.answer.Err? then Outcome([], m, EndingOf(read.answer.error, s.closed))
    else
      var (response, m') := AnswerAt(s, m, read.answer.value, i);
      if !Sendable(s.wire.responses, response) then Outcome([], m', Failed(FrameTooLarge(U32_MAX)))
      else
        var rest := Serve(s, m', read.rest, i + 1);
        rest.(sent := Frame(s.wire.responses, response) + rest.sent)
  }

  method Dispatch(fabric: F.Fabric, request: RpcRequest, host: Host) returns (response: RpcResponse)
    modifies fabric, fabric.store, fabric.vmm
    ensures (response, fabric.State()) == Rpc.Dispatch(old(fabric.State()), request, host, fabric.vmm.binary)
  {
    match request {
      case Ping => response := Pong;
      case Inventory => response := Resources(fabric.resources.Values);
      case FindAvailable(query) =>
        var found := fabric.FindAvailable(query);
        response := Offered(found);
      case LeaseExclusive(rid, owner, ttlSecs) =>
        var answer := fabric.LeaseExclusive(rid, owner, ttlSecs * SECOND);
        response := if answer.Ok? then Leased(answer.value) else Error(FromFabric(answer.error));
      case Attach(adapter, lease) =>
        var answer := fabric.Attach(adapter, lease, host);
        response := if answer.Ok? then Attached(answer.value) else Error(FromFabric(answer.error));
      case Release(lease) =>
        var answer := fabric.Release(lease);
        response := if answer.Ok? then Released else Error(FromFabric(answer.error));
      case LeaseRenew(lease, ttlSecs) =>
        var answer := fabric.RenewLease(lease, ttlSecs * SECOND);
        response := if answer.Ok? then Leased(answer.value) else Error(FromFabric(answer.error));
      case Heartbeat(node) =>
        fabric.Heartbeat(node);
        response := Pong;
    }
  }

  method AnswerOne(fabric: F.Fabric, auth: AuthProvider, request: RpcRequest, around: Surroundings)
    returns (response: RpcResponse)
    modifies fabric, fabric.store, fabric.vmm
    ensures (response, fabric.State())
         == Answer(auth, Waited(old(fabric.State()), around.ticks), request, around.host, fabric.vmm.binary)
  {
    fabric.Wait(around.ticks);
    var verdict := Authorize(auth, request);
    if verdict.Ok? {
      response := Dispatch(fabric, request, around.host);
    } else {
      response := Error(FromAuth(verdict.error));
    }
  }

  /** The session so far and what is left of it make up the whole. */
  ghost predicate Continues(whole: Outcome, sent: seq<byte>, later: Outcome) {
    whole == later.(sent := sent + later.sent)
  }

  lemma GoesOn(whole: Outcome, sent: seq<byte>, s: Setting, m: FabricState, stream: seq<byte>, i: nat,
               request: RpcRequest, rest: seq<byte>, response: RpcResponse, m': FabricState)
    requires ReadOne(s.wire.requests, stream) == Read(Ok(request), rest)
    requires AnswerAt(s, m, request, i) == (response, m') && Sendable(s.wire.responses, response)
    requires Continues(whole, sent, Serve(s, m, stream, i))
    ensures Continues(whole, sent + Frame(s.wire.responses, response), Serve(s, m', rest, i + 1))
  {
    var frame, later := Frame(s.wire.responses, response), Serve(s, m', rest, i + 1).sent;
    assert sent + (frame + later) == (sent + frame) + later;
  }

  /** The loop ends where reading fails, or the response cannot be framed. */
  lemma StopsHere(whole: Outcome, sent: seq<byte>, s: Setting, m: FabricState, stream: seq<byte>, i: nat)
    requires Continues(whole, sent, Serve(s, m, stream, i))
    ensures var read := ReadOne(s.wire.requests, stream);
            && (read.answer.Err? ==> whole == Outcome(sent, m, EndingOf(read.answer.error, s.closed)))
            && (read.answer.Ok? ==>
                  var (response, m') := AnswerAt(s, m, read.answer.value, i);
                  !Sendable(s.wire.responses, response) ==> whole == Outcome(sent, m', Failed(FrameTooLarge(U32_MAX))))
  {
  }

  method Accept(fabric: F.Fabric, wire: Wire, auth: AuthProvider, incoming: Pipe, outgoing: Pipe,
                env: nat -> Surroundings, closed: bool) returns (ending: Ending)
    requires incoming != outgoing
    modifies fabric, fabric.store, fabric.vmm, incoming, outgoing
    ensures var s := Setting(wire, auth, env, closed, fabric.vmm.binary);
            Outcome(outgoing.bytes, fabric.State(), ending)
            == var session := Serve(s, old(fabric.State()), old(incoming.bytes), 0);
               session.(sent := old(outgoing.bytes) + session.sent)
  {
    ghost var s := Setting(wire, auth, env, closed, fabric.vmm.binary);
    ghost var whole := Serve(s, fabric.State(), incoming.bytes, 0);
    whole := whole.(sent := outgoing.bytes + whole.sent);
    var i := 0;
    while true
      invariant Continues(whole, outgoing.bytes, Serve(s, fabric.State(), incoming.bytes, i))
      decreases |incoming.bytes|
    {
      ghost var sent, m, stream := outgoing.bytes, fabric.State(), incoming.bytes;
      StopsHere(whole, sent, s, m, stream, i);
      var request := ReadFrame(incoming, wire.requests);
      if request.Err? {
        return EndingOf(request.error, closed);
      }
      var response := AnswerOne(fabric, auth, request.value, env(i));
      var written := WriteFrame(outgoing, wire.responses, response);
      if written.Err? {
        return Failed(written.error);
      }
      GoesOn(whole, sent, s, m, stream, i, request.value, incoming.bytes, response, fabric.State());
      i := i + 1;
    }
  }

  // ------------------------------------------------------------- refinement

  predicate AllSendable(c: Codec<RpcResponse>, responses: seq<RpcResponse>) {
    forall i :: 0 <= i < |responses| ==> Sendable(c, responses[i])
  }

  function Replies(c: Codec<RpcResponse>, responses: seq<RpcResponse>): seq<byte>
    requires AllSendable(c, responses)
  {
    if responses == [] then [] else Frame(c, responses[0]) + Replies(c, responses[1..])
  }

  /** A session over any bytes answers exactly the requests they frame, one response
      each and in order, as the fold over the fabric does. */
  lemma {:induction false} ServeIsFold(s: Setting, m: FabricState, stream: seq<byte>, i: nat)
    requires AllSendable(s.wire.responses, Fold(s.auth, m, ReadAll(s.wire.requests, stream).0, s.env, i, s.binary).0)
    ensures var (requests, end) := ReadAll(s.wire.requests, stream);
            var (responses, m') := Fold(s.auth, m, requests, s.env, i, s.binary);
            && |responses| == |requests|
            && Serve(s, m, stream, i) == Outcome(Replies(s.wire.responses, responses), m', EndingOf(end, s.closed))
    decreases |stream|
  {
    var read := ReadOne(s.wire.requests, stream);
    if read.answer.Ok? {
      var requests := ReadAll(s.wire.requests, read.rest).0;
      var whole := ReadAll(s.wire.requests, stream).0;
      assert whole[1..] == requests;
      var (response, m') := AnswerAt(s, m, read.answer.value, i);
      var responses := Fold(s.auth, m', requests, s.env, i + 1, s.binary).0;
      var all := Fold(s.auth, m, whole, s.env, i, s.binary).0;
      assert all == [response] + responses && all[1..] == responses;
      forall k | 0 <= k < |responses| ensures Sendable(s.wire.responses, responses[k]) {
        assert all[k + 1] == responses[k];
      }
      assert Sendable(s.wire.responses, all[0]);
      ServeIsFold(s, m', read.rest, i + 1);
    }
  }

  /** The session over a request stream cut anywhere serves exactly the requests whose
      frames are whole, and answers them as the fold does; a cut in a header passes
      for the peer finishing. With k the whole length, nothing is cut. */
  lemma SessionRefinesFold(s: Setting, m: FabricState, requests: seq<RpcRequest>, k: nat)
    requires Lawful(s.wire.requests) && AllReadable(s.wire.requests, requests)
    requires k <= |Stream(s.wire.requests, requests)|
    requires AllSendable(s.wire.responses,
               Fold(s.auth, m, requests[..WholeFrames(s.wire.requests, requests, k)], s.env, 0, s.binary).0)
    ensures var n := WholeFrames(s.wire.requests, requests, k);
            var (responses, m') := Fold(s.auth, m, requests[..n], s.env, 0, s.binary);
            && |responses| == n
            && Serve(s, m, Stream(s.wire.requests, requests)[..k], 0)
               == Outcome(Replies(s.wire.responses, responses), m',
                          if Remainder(s.wire.requests, requests, k) < 4 then Finished
                          else if s.closed then ClosedByPeer else Failed(Io))
  {
    CutKeepsWholeFrames(s.wire.requests, requests, k);
    ServeIsFold(s, m, Stream(s.wire.requests, requests)[..k], 0);
  }

  /** A frame that is no request ends the session: what came before it is served, it
      reaches neither the provider nor the fabric, and nothing behind it is read. */
  lemma BadFrameEndsTheSession(s: Setting, m: FabricState, requests: seq<RpcRequest>, body: seq<byte>, rest: seq<byte>)
    requires Lawful(s.wire.requests) && AllReadable(s.wire.requests, requests)
    requires |body| <= 0xFFFF_FFFF && (|body| <= 16_777_216 ==> s.wire.requests.decode(body) == None)
    requires AllSendable(s.wire.responses, Fold(s.auth, m, requests, s.env, 0, s.binary).0)
    ensures var bad := LittleEndian(|body|) + body + rest;
            var (responses, m') := Fold(s.auth, m, requests, s.env, 0, s.binary);
            Serve(s, m, Stream(s.wire.requests, requests) + bad, 0)
            == Outcome(Replies(s.wire.responses, responses), m',
                       if s.closed then ClosedByPeer
                       else Failed(if |body| <= 16_777_216 then Json else FrameTooLarge(|body|)))
  {
    var bad := LittleEndian(|body|) + body + rest;
    BadFrameIsRefused(s.wire.requests, body, rest);
    ReadUpToBad(s.wire.requests, requests, bad);
    ServeIsFold(s, m, Stream(s.wire.requests, requests) + bad, 0);
  }

  lemma {:induction false} RepliesAreAStream(c: Codec<RpcResponse>, responses: seq<RpcResponse>)
    requires AllReadable(c, responses) && AllSendable(c, responses)
    ensures Replies(c, responses) == Stream(c, responses)
  {
    if responses != [] {
      RepliesAreAStream(c, responses[1..]);
    }
  }

  /** End to end, pipelined: a peer that writes all its requests and then reads to the
      end gets the responses of the fold, one for each request and in their order. */
  lemma ControllerReadsTheAnswers(s: Setting, m: FabricState, requests: seq<RpcRequest>, responses: seq<RpcResponse>)
    requires Lawful(s.wire.requests) && AllReadable(s.wire.requests, requests)
    requires Lawful(s.wire.responses) && AllReadable(s.wire.responses, responses)
    requires responses == Fold(s.auth, m, requests, s.env, 0, s.binary).0
    ensures var session := Serve(s, m, Stream(s.wire.requests, requests), 0);
            && ReadAll(s.wire.responses, session.sent) == (responses, ConnectionClosed)
            && |responses| == |requests| && session.ending == Finished
            && session.fabric == Fold(s.auth, m, requests, s.env, 0, s.binary).1
  {
    StreamRoundTrip(s.wire.requests, requests);
    assert AllSendable(s.wire.responses, responses);
    ServeIsFold(s, m, Stream(s.wire.requests, requests), 0);
    RepliesAreAStream(s.wire.responses, responses);
    StreamRoundTrip(s.wire.responses, responses);
  }

  // ------------------------------------------------------ call by call

  /** What one turn of the accept loop leaves: the frame it sent, the fabric, and the
      bytes it has not read. */
  datatype Turn = Turn(reply: seq<byte>, fabric: FabricState, rest: seq<byte>)

  function TurnOf(s: Setting, m: FabricState, stream: seq<byte>, i: nat): Option<Turn> {
    var read := ReadOne(s.wire.requests, stream);
    if read.answer.Err? then None
    else
      var (response, m') := AnswerAt(s, m, read.answer.value, i);
      if Sendable(s.wire.responses, response) then Some(Turn(Frame(s.wire.responses, response), m', read.rest))
      else None
  }

  /** The session is its turns, one after the other. */
  lemma ServeTurns(s: Setting, m: FabricState, stream: seq<byte>, i: nat, turn: Turn)
    requires TurnOf(s, m, stream, i) == Some(turn)
    ensures var later := Serve(s, turn.fabric, turn.rest, i + 1);
            Serve(s, m, stream, i) == later.(sent := turn.reply + later.sent)
  {
  }

  /** What one call of the controller leaves: the response it returns, the fabric, and
      the bytes still under way to the agent and back. */
  datatype Called = Called(response: RpcResponse, fabric: FabricState, toAgent: seq<byte>, toController: seq<byte>)

  /** A call writes its request, the agent takes its turn, and the call reads a response. */
  function CallOf(s: Setting, m: FabricState, request: RpcRequest, i: nat, toAgent: seq<byte>, toController: seq<byte>)
    : Option<Called>
  {
    if !Sendable(s.wire.requests, request) then None
    else
      match TurnOf(s, m, toAgent + Frame(s.wire.requests, request), i)
      case None => None
      case Some(turn) =>
        var read := ReadOne(s.wire.responses, toController + turn.reply);
        if read.answer.Err? then None
        else Some(Called(read.answer.value, turn.fabric, turn.rest, read.rest))
  }

  /** Calls in alternation: the next request is written when the last response is read. */
  function Converse(s: Setting, m: FabricState, requests: seq<RpcRequest>, i: nat,
                    toAgent: seq<byte>, toController: seq<byte>): Option<(seq<RpcResponse>, FabricState)>
    decreases |requests|
  {
    if requests == [] then Some(([], m))
    else
      match CallOf(s, m, requests[0], i, toAgent, toController)
      case None => None
      case Some(called) =>
        match Converse(s, called.fabric, requests[1..], i + 1, called.toAgent, called.toController)
        case None => None
        case Some((responses, m')) => Some(([called.response] + responses, m'))
  }

  /** A call returns its own request's answer and leaves nothing under way. */
  lemma CallIsAnswered(s: Setting, m: FabricState, request: RpcRequest, i: nat, response: RpcResponse, m': FabricState)
    requires Lawful(s.wire.requests) && |s.wire.requests.encode(request)| <= MAX_FRAME_BYTES
    requires Lawful(s.wire.responses) && |s.wire.responses.encode(response)| <= MAX_FRAME_BYTES
    requires AnswerAt(s, m, request, i) == (response, m')
    ensures CallOf(s, m, request, i, [], []) == Some(Called(response, m', [], []))
  {
    var asked, replied := Frame(s.wire.requests, request), Frame(s.wire.responses, response);
    assert [] + asked == asked + [] && [] + replied == replied + [];
    FrameRoundTrip(s.wire.requests, request, []);
    FrameRoundTrip(s.wire.responses, response, []);
    assert TurnOf(s, m, [] + asked, i) == Some(Turn(replied, m', []));
  }

  /** End to end, as the controller calls: each call returns the answer of the fold to
      its own request, and the calls leave the fabric the fold leaves. */
  lemma {:induction false} CallsAreTheFold(s: Setting, m: FabricState, requests: seq<RpcRequest>, i: nat,
                                           responses: seq<RpcResponse>)
    requires Lawful(s.wire.requests) && AllReadable(s.wire.requests, requests)
    requires Lawful(s.wire.responses) && AllReadable(s.wire.responses, responses)
    requires responses == Fold(s.auth, m, requests, s.env, i, s.binary).0
    ensures |responses| == |requests|
    ensures Converse(s, m, requests, i, [], [])
         == Some((responses, Fold(s.auth, m, requests, s.env, i, s.binary).1))
    decreases |requests|
  {
    if requests != [] {
      var (response, m') := AnswerAt(s, m, requests[0], i);
      var later := Fold(s.auth, m', requests[1..], s.env, i + 1, s.binary).0;
      assert responses == [response] + later && responses[0] == response && responses[1..] == later;
      assert forall k :: 0 <= k < |later| ==> later[k] == responses[k + 1];
      CallIsAnswered(s, m, requests[0], i, response, m');
      CallsAreTheFold(s, m', requests[1..], i + 1, later);
    }
  }

  // ------------------------------------------------------ rejected requests

  predicate Rejected(auth: AuthProvider, request: RpcRequest) {
    Authorize(auth, request).Err?
  }

  /** The same requests with a ping in place of every rejected one. */
  function Cleaned(auth: AuthProvider, requests: seq<RpcRequest>): (r: seq<RpcRequest>)
    ensures |r| == |requests|
  {
    if requests == [] then []
    else [if Rejected(auth, requests[0]) then Ping else requests[0]] + Cleaned(auth, requests[1..])
  }

  predicate SameExceptRejected(auth: AuthProvider, requests: seq<RpcRequest>, left: seq<RpcResponse>,
                               right: seq<RpcResponse>)
  {
    && |left| == |requests| == |right|
    && forall k :: 0 <= k < |requests| ==>
         if Rejected(auth, requests[k]) then left[k] == Error(FromAuth(Authorize(auth, requests[k]).error))
         else left[k] == right[k]
  }

  /** A rejected request is refused with the reason and changes nothing: not the
      fabric, and not the answer to any other request. */
  lemma {:induction false} RejectedChangesNothing(auth: AuthProvider, m: FabricState, requests: seq<RpcRequest>,
                                                  env: nat -> Surroundings, i: nat, binary: string)
    ensures var (responses, m') := Fold(auth, m, requests, env, i, binary);
            var (pinged, m'') := Fold(auth, m, Cleaned(auth, requests), env, i, binary);
            m' == m'' && SameExceptRejected(auth, requests, responses, pinged)
    decreases |requests|
  {
    if requests != [] {
      var m1 := Answer(auth, Waited(m, env(i).ticks), requests[0], env(i).host, binary).1;
      assert Cleaned(auth, requests)[1..] == Cleaned(auth, requests[1..]);
      RejectedChangesNothing(auth, m1, requests[1..], env, i + 1, binary);
      assert forall k :: 0 < k < |requests| ==> requests[k] == requests[1..][k - 1];
    }
  }
}
