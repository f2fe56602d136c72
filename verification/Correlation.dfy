/** A client's calls, end to end: through the client's encoder, the server's decoder and dispatcher,
    the reply closures in whatever order the services run them, and the client's decoder, to the
    callbacks that wait for the replies. */
module Correlation {
  import opened Bytes
  import opened TcpBuffers
  import opened TinyPB
  import opened TinyPBLemmas
  import opened TinyPBStreams
  import opened TinyPBCoder
  import opened TcpConnections
  import opened RpcDispatchers

  /** The ids are pairwise distinct, and every request survives the wire unchanged. */
  predicate WellFormed(requests: seq<Message>) {
    && (forall i :: 0 <= i < |requests| ==> Sendable(requests[i]) && Canonical(requests[i]) == requests[i])
    && (forall i, j :: 0 <= i < j < |requests| ==> requests[i].id != requests[j].id)
  }

  lemma WellFormedExactly(requests: seq<Message>)
    ensures WellFormed(requests) <==>
      && (forall i, j :: 0 <= i < j < |requests| ==> requests[i].id != requests[j].id)
      && forall i :: 0 <= i < |requests| ==>
           var m := requests[i];
           && 0 < |m.id| <= 127 && |m.methodName| <= 511 && |m.errorInfo| <= 511 && |Frame(m)| < 0x8000_0000
           && 0 !in m.id && 0 !in m.methodName && 0 !in m.errorInfo
  {
    hide Sendable, Canonical, Frame;
    forall i | 0 <= i < |requests|
      ensures var m := requests[i];
        Sendable(m) && Canonical(m) == m <==>
        && 0 < |m.id| <= 127 && |m.methodName| <= 511 && |m.errorInfo| <= 511 && |Frame(m)| < 0x8000_0000
        && 0 !in m.id && 0 !in m.methodName && 0 !in m.errorInfo
    {
      CanonicalIsIdentity(requests[i]);
      if 0 !in requests[i].id && 0 !in requests[i].methodName && 0 !in requests[i].errorInfo {
        SendableExactly(requests[i]);
      }
    }
  }

  /** One PushRecvMessage for each call: callbacks[i] waits for the reply to requests[i]. */
  function Waited(requests: seq<Message>, callbacks: seq<Callback>): map<Id, Callback>
    requires |requests| == |callbacks|
  {
    if requests == [] then map[]
    else
      var n := |requests| - 1;
      Waiting(Waited(requests[..n], callbacks[..n]), requests[n].id, callbacks[n])
  }

  /** Which calls the services answer, in the order of their closure runs: any calls that were not
      refused, each any number of times. */
  predicate Completions(services: map<Name, Service>, requests: seq<Message>, order: seq<nat>) {
    forall k :: 0 <= k < |order| ==>
      order[k] < |requests| && DispatchResult(services, requests[order[k]]).Called?
  }

  lemma CompletionsMean(services: map<Name, Service>, requests: seq<Message>, order: seq<nat>)
    ensures Completions(services, requests, order) <==>
      forall c :: c in order ==> c < |requests| && DispatchResult(services, requests[c]).Called?
  {
    hide DispatchResult;
    assert forall k :: 0 <= k < |order| ==> order[k] in order;
  }

  function Reply(services: map<Name, Service>, request: Message): Message {
    match DispatchResult(services, request)
    case Refused(response) => response
    case Called(reply) => reply
  }

  /** The replies of the completed calls, in the order of their completions. */
  function RepliesTo(services: map<Name, Service>, requests: seq<Message>, order: seq<nat>): seq<Message>
    requires Completions(services, requests, order)
  {
    if order == [] then []
    else [Reply(services, requests[order[0]])] + RepliesTo(services, requests, order[1..])
  }

  /** The completions without repetitions: each call at its first one. */
  function Firsts(order: seq<nat>, seen: set<nat>): seq<nat>
    decreases |order|
  {
    if order == [] then []
    else if order[0] in seen then Firsts(order[1..], seen)
    else [order[0]] + Firsts(order[1..], seen + {order[0]})
  }

  /** Firsts keeps every call that is answered, once. */
  lemma {:induction false} FirstsAreDistinct(order: seq<nat>, seen: set<nat>)
    ensures var cs := Firsts(order, seen);
      && (forall c :: c in cs <==> c in order && c !in seen)
      && (forall i, j :: 0 <= i < j < |cs| ==> cs[i] != cs[j])
    decreases |order|
  {
    if order != [] {
      var c := order[0];
      assert order == [c] + order[1..];
      FirstsAreDistinct(order[1..], if c in seen then seen else seen + {c});
    }
  }

  /** The callbacks that ought to run for the answers to the calls `cs`. */
  function RunsFor(services: map<Name, Service>, requests: seq<Message>, callbacks: seq<Callback>, cs: seq<nat>)
    : seq<Ran>
    requires |requests| == |callbacks| && forall k :: 0 <= k < |cs| ==> cs[k] < |requests|
    decreases |cs|
  {
    if cs == [] then []
    else [Ran(callbacks[cs[0]], Canonical(Reply(services, requests[cs[0]])))]
         + RunsFor(services, requests, callbacks, cs[1..])
  }

  lemma {:induction false} WaitedExactly(requests: seq<Message>, callbacks: seq<Callback>)
    requires |requests| == |callbacks| && WellFormed(requests)
    ensures forall i :: 0 <= i < |requests| ==>
      requests[i].id in Waited(requests, callbacks) && Waited(requests, callbacks)[requests[i].id] == callbacks[i]
    ensures forall id :: id in Waited(requests, callbacks) ==> exists i :: 0 <= i < |requests| && requests[i].id == id
    decreases |requests|
  {
    hide Sendable, Canonical;
    if requests != [] {
      var n := |requests| - 1;
      var before := Waited(requests[..n], callbacks[..n]);
      WaitedExactly(requests[..n], callbacks[..n]);
      forall id | id in Waited(requests, callbacks)
        ensures exists i :: 0 <= i < |requests| && requests[i].id == id
      {
        if id in before {
          var i :| 0 <= i < n && requests[..n][i].id == id;
          assert requests[i].id == id;
        } else {
          assert requests[n].id == id;
        }
      }
    }
  }

  /** The callbacks still waiting are those of the calls not yet answered. */
  ghost predicate WaitsForUnseen(
      cbs: map<Id, Callback>, requests: seq<Message>, callbacks: seq<Callback>, seen: set<nat>)
    requires |requests| == |callbacks|
  {
    forall i {:trigger requests[i]} :: 0 <= i < |requests| ==>
      (requests[i].id in cbs <==> i !in seen) && (i !in seen ==> cbs[requests[i].id] == callbacks[i])
  }

  lemma ReplyKeepsId(services: map<Name, Service>, request: Message)
    requires Canonical(request) == request
    ensures Canonical(Reply(services, request)).id == request.id
  {
    ResponseIsCorrelated(services, request);
    CanonicalIsIdentity(request);
  }

  lemma {:induction false} RepliesRunTheirCallbacks(
      services: map<Name, Service>, requests: seq<Message>, callbacks: seq<Callback>, order: seq<nat>,
      seen: set<nat>, cbs: map<Id, Callback>)
    requires |requests| == |callbacks| && WellFormed(requests) && Completions(services, requests, order)
    requires WaitsForUnseen(cbs, requests, callbacks, seen)
    ensures forall k :: 0 <= k < |Firsts(order, seen)| ==> Firsts(order, seen)[k] < |requests|
    ensures RunCallbacks(cbs, Canonicals(RepliesTo(services, requests, order))).ran
      == RunsFor(services, requests, callbacks, Firsts(order, seen))
    decreases |order|
  {
    hide Sendable, Canonical, Reply;
    if order != [] {
      var c := order[0];
      var rest := order[1..];
      ReplyKeepsId(services, requests[c]);
      var id := requests[c].id;
      var replies := RepliesTo(services, requests, order);
      assert replies[0] == Reply(services, requests[c]) && replies[1..] == RepliesTo(services, requests, rest);
      assert Canonicals(replies)[0].id == id && Canonicals(replies)[1..] == Canonicals(replies[1..]);
      if c in seen {
        RepliesRunTheirCallbacks(services, requests, callbacks, rest, seen, cbs);
      } else {
        RepliesRunTheirCallbacks(services, requests, callbacks, rest, seen + {c}, cbs - {id});
        assert Firsts(order, seen)[1..] == Firsts(rest, seen + {c});
      }
    }
  }

  /** A stream of frames, well cut for a new buffer of the given capacity. */
  ghost predicate Streamed(ms: seq<Message>, chunks: seq<seq<Byte>>, capacity: nat) {
    && AllSendable(ms) && 0 < capacity < INT32_LIMIT
    && Concat(chunks) == Frames(ms) && WellCut(NewWindow(capacity), ms, chunks)
  }

  /** A stream that leaves room in the buffer may come in one piece. */
  lemma OnePieceStreams(ms: seq<Message>, capacity: nat)
    requires AllSendable(ms) && |Frames(ms)| < capacity < INT32_LIMIT
    ensures Streamed(ms, [Frames(ms)], capacity)
  {
    hide Frames, WellCut;
    OneChunkIsWellCut(capacity, ms);
    assert Frames(ms) + [] == Frames(ms);
    assert Concat([Frames(ms)]) == Frames(ms) + Concat([]);
  }

  /** End to end. Both streams may be cut into chunks in any well-cut way. The server gets the requests as
      they were sent. The callbacks that run are exactly those registered for the calls answered, one for
      the first answer of each, in the order the answers were sent, and each is handed the reply to its
      own request. */
  lemma EndToEnd(
      services: map<Name, Service>, requests: seq<Message>, callbacks: seq<Callback>, order: seq<nat>,
      capacity: nat, upstream: seq<seq<Byte>>, downstream: seq<seq<Byte>>)
    requires |requests| == |callbacks| && WellFormed(requests) && Completions(services, requests, order)
    requires Streamed(requests, upstream, capacity)
    requires Streamed(RepliesTo(services, requests, order), downstream, capacity)
    ensures var server := Deliver(NewWindow(capacity), upstream); server.Done? && server.msgs == requests
    ensures forall k :: 0 <= k < |Firsts(order, {})| ==> Firsts(order, {})[k] < |requests|
    ensures var client := Deliver(NewWindow(capacity), downstream);
      client.Done? &&
      RunCallbacks(Waited(requests, callbacks), client.msgs).ran
      == RunsFor(services, requests, callbacks, Firsts(order, {}))
  {
    hide Streamed, Canonical, Sendable, Frames, Deliver, RunsFor, RunCallbacks, RepliesTo;
    DeliverNew(capacity, requests, upstream);
    CanonicalsAreSame(requests);
    DeliverNew(capacity, RepliesTo(services, requests, order), downstream);
    WaitedExactly(requests, callbacks);
    RepliesRunTheirCallbacks(services, requests, callbacks, order, {}, Waited(requests, callbacks));
  }

  lemma {:induction false} RunsAre(
      services: map<Name, Service>, requests: seq<Message>, callbacks: seq<Callback>, cs: seq<nat>, k: nat)
    requires |requests| == |callbacks| && (forall j :: 0 <= j < |cs| ==> cs[j] < |requests|) && k < |cs|
    ensures var ran := RunsFor(services, requests, callbacks, cs);
      && |ran| == |cs|
      && ran[k] == Ran(callbacks[cs[k]], Canonical(Reply(services, requests[cs[k]])))
    decreases |cs|
  {
    hide Canonical, Reply;
    if k > 0 {
      RunsAre(services, requests, callbacks, cs[1..], k - 1);
    } else if |cs| > 1 {
      RunsAre(services, requests, callbacks, cs[1..], 0);
    }
  }

  /** What the callbacks are handed that run end to end: the k-th, where its request names method m of
      service s, the id of that request and the payload the service makes of its payload, or the error of
      a response that cannot be serialized. */
  lemma AnswerArrives(
      services: map<Name, Service>, requests: seq<Message>, callbacks: seq<Callback>, order: seq<nat>, k: nat,
      s: Name, m: Name)
    requires |requests| == |callbacks| && WellFormed(requests) && Completions(services, requests, order)
    requires k < |Firsts(order, {})| && Firsts(order, {})[k] < |requests|
    requires requests[Firsts(order, {})[k]].methodName == s + [DOT] + m && DOT !in s
    ensures forall j :: 0 <= j < |Firsts(order, {})| ==> Firsts(order, {})[j] < |requests|
    ensures var c := Firsts(order, {})[k];
      var ran := RunsFor(services, requests, callbacks, Firsts(order, {}));
      && |ran| == |Firsts(order, {})| && ran[k].callback == callbacks[c] && ran[k].message.id == requests[c].id
      && s in services && m in services[s].methods
      && var answer := services[s].methods[m](requests[c].pbData);
         match answer
         case Unparsable => false
         case Response(data) => ran[k].message.pbData == data && ran[k].message.errorCode == 0
         case Unserializable => ran[k].message.pbData == [] && ran[k].message.errorCode == 10000004
  {
    hide RunsFor, Completions, WellFormed, DispatchResult, Firsts, Canonical, Reply;
    var cs := Firsts(order, {});
    FirstsAreDistinct(order, {});
    forall j | 0 <= j < |cs|
      ensures cs[j] < |requests|
    {
      IsCompleted(services, requests, order, cs[j]);
    }
    IsCompleted(services, requests, order, cs[k]);
    IsWellFormed(requests, cs[k]);
    RunsAre(services, requests, callbacks, cs, k);
    AnswerOf(services, requests[cs[k]], s, m);
  }

  lemma AnswerOf(services: map<Name, Service>, request: Message, s: Name, m: Name)
    requires DispatchResult(services, request).Called? && Canonical(request) == request
    requires request.methodName == s + [DOT] + m && DOT !in s
    ensures s in services && m in services[s].methods && Canonical(Reply(services, request)).id == request.id
    ensures var answer := services[s].methods[m](request.pbData); var message := Canonical(Reply(services, request));
      match answer
      case Unparsable => false
      case Response(data) => message.pbData == data && message.errorCode == 0
      case Unserializable => message.pbData == [] && message.errorCode == 10000004
  {
    hide DispatchResult, CString;
    DispatchedExactly(services, request, s, m);
    ReplyCarriesAnswer(services, request, s, m);
    ReplyKeepsId(services, request);
  }

  lemma IsCompleted(services: map<Name, Service>, requests: seq<Message>, order: seq<nat>, c: nat)
    requires Completions(services, requests, order) && c in order
    ensures c < |requests| && DispatchResult(services, requests[c]).Called?
  {
  }

  lemma IsWellFormed(requests: seq<Message>, c: nat)
    requires WellFormed(requests) && c < |requests|
    ensures Sendable(requests[c]) && Canonical(requests[c]) == requests[c]
  {
  }

  lemma DeliverNew(capacity: nat, ms: seq<Message>, chunks: seq<seq<Byte>>)
    requires Streamed(ms, chunks, capacity)
    ensures var o := Deliver(NewWindow(capacity), chunks); o.Done? && o.msgs == Canonicals(ms)
  {
    hide Frame, WellCut;
    var s := NewWindow(capacity);
    assert s.Contents() == [] && [] + Concat(chunks) == Concat(chunks);
    assert Whole(ms, 0) == 0 by {
      if ms != [] {
        FrameIsNotEmpty(ms[0]);
      }
    }
    ChunkedDelivery(s, ms, chunks);
  }

  lemma FrameIsNotEmpty(m: Message)
    ensures 26 <= |Frame(m)|
  {
  }

  lemma {:induction false} CanonicalsAreSame(ms: seq<Message>)
    requires forall i :: 0 <= i < |ms| ==> Canonical(ms[i]) == ms[i]
    ensures Canonicals(ms) == ms
    decreases |ms|
  {
    hide Canonical;
    if ms != [] {
      CanonicalsAreSame(ms[1..]);
      assert ms == [ms[0]] + ms[1..];
    }
  }

  /** Requests on their way: pushed on a client, put onto its socket by OnWrite, and, if no write was short
      and all was written, handed in well-cut chunks to a server, which decodes them as they were. */
  method RequestsArrive(
      client: TcpConnection, server: TcpConnection, messages: seq<TinyProtocol>, callbacks: seq<Callback>,
      results: seq<WriteResult>, chunks: seq<seq<Byte>>)
    returns (wire: seq<Byte>, arrived: bool, result: seq<TinyProtocol>)
    requires client.Valid() && server.Valid() && client != server && client.isClient && |messages| == |callbacks|
    requires server.myRecvBuffer !in {client.mySendBuffer, client.myRecvBuffer}
    requires server.myRecvBuffer.myBuffer !in {client.mySendBuffer.myBuffer, client.myRecvBuffer.myBuffer}
    requires client.myState == server.myState == TcpState.Connected
    requires client.mySendBuffer.Contents() == [] && client.mySendCbCollection == []
    requires Arriving(server.myRecvBuffer.State(), Views(messages), Concat(chunks))
    requires server.myRecvBuffer.Contents() == [] && WellCut(server.myRecvBuffer.State(), Views(messages), chunks)
    modifies messages, client`mySendCbCollection, client.mySendBuffer, client.mySendBuffer.myBuffer
    modifies server`myState, server.myRecvBuffer, server.myRecvBuffer.myBuffer
    ensures client.Valid()
    ensures var stream := Frames(old(Views(messages)));
      && |wire| + |client.mySendBuffer.Contents()| == |stream| + ShortBytes(stream, results)
      && (wire + client.mySendBuffer.Contents() == stream <==> ShortBytes(stream, results) == 0)
      && (arrived <==> wire == stream)
    ensures arrived ==> AllDecoded(result, Canonicals(old(Views(messages))))
  {
    hide Frames, Frame, WellCut, Arriving, ShortBytes, Emit, Canonicals, AllSendable;
    ghost var ms := Views(messages);
    ghost var s := server.myRecvBuffer.State();
    ArrivingStream(s, ms, Concat(chunks));
    wire := SendRequests(client, messages, callbacks, results);
    arrived := wire == Concat(chunks);
    result := [];
    if arrived {
      ChunkedDelivery(s, ms, chunks);
      result := DecodeChunks(server, chunks);
    }
  }

  /** The client's part. */
  method SendRequests(
      client: TcpConnection, messages: seq<TinyProtocol>, callbacks: seq<Callback>, results: seq<WriteResult>)
    returns (wire: seq<Byte>)
    requires client.Valid() && client.isClient && client.myState == TcpState.Connected && |messages| == |callbacks|
    requires client.mySendBuffer.Contents() == [] && client.mySendCbCollection == [] && AllSendable(Views(messages))
    modifies messages, client`mySendCbCollection, client.mySendBuffer, client.mySendBuffer.myBuffer
    ensures client.Valid()
    ensures client.mySendBuffer.myBuffer == old(client.mySendBuffer.myBuffer) || fresh(client.mySendBuffer.myBuffer)
    ensures var stream := Frames(old(Views(messages)));
      && |wire| + |client.mySendBuffer.Contents()| == |stream| + ShortBytes(stream, results)
      && (wire + client.mySendBuffer.Contents() == stream <==> ShortBytes(stream, results) == 0)
  {
    hide Frames, ShortBytes, Emit, AllSendable;
    ghost var ms := Views(messages);
    PushAll(client, messages, callbacks);
    AllPrintable(ms, client.mySendCbCollection);
    ghost var ran;
    wire, ran := client.OnWrite(results);
    assert [] + Frames(ms) == Frames(ms);
  }

  lemma AllPrintable(ms: seq<Message>, c: seq<(TinyProtocol, Callback)>)
    requires AllSendable(ms) && ms == Views(Messages(c))
    ensures forall p :: p in c ==> PackageLen(WithId(p.0.View())) < INT32_LIMIT
  {
    forall p | p in c
      ensures PackageLen(WithId(p.0.View())) < INT32_LIMIT
    {
      var i :| 0 <= i < |c| && c[i] == p;
      assert Sendable(ms[i]);
    }
  }

  lemma ArrivingStream(s: Window, ms: seq<Message>, rest: seq<Byte>)
    requires Arriving(s, ms, rest) && s.Contents() == []
    ensures Frames(ms) == rest && AllSendable(ms)
  {
    assert [] + rest == rest;
  }

  method PushAll(client: TcpConnection, messages: seq<TinyProtocol>, callbacks: seq<Callback>)
    requires |messages| == |callbacks| && client.mySendCbCollection == []
    modifies client`mySendCbCollection
    ensures Messages(client.mySendCbCollection) == messages
  {
    for i := 0 to |messages|
      invariant |client.mySendCbCollection| == i
      invariant forall k :: 0 <= k < i ==> client.mySendCbCollection[k].0 == messages[k]
    {
      client.PushSendMessage(messages[i], callbacks[i]);
    }
  }

  /** OnRead up to the dispatching, for each chunk. */
  method DecodeChunks(server: TcpConnection, chunks: seq<seq<Byte>>) returns (result: seq<TinyProtocol>)
    requires server.Valid() && server.myState == TcpState.Connected
    requires Deliver(server.myRecvBuffer.State(), chunks).Done?
    modifies server`myState, server.myRecvBuffer, server.myRecvBuffer.myBuffer
    ensures AllDecoded(result, Deliver(old(server.myRecvBuffer.State()), chunks).msgs)
    ensures forall p :: p in result ==> fresh(p)
    decreases |chunks|
  {
    hide DecodeWindow, ReadAll, Decoded;
    result := [];
    if chunks == [] {
      return;
    }
    result := DecodeChunk(server, chunks[0]);
    var more := DecodeChunks(server, chunks[1..]);
    result := result + more;
  }

  method DecodeChunk(server: TcpConnection, chunk: seq<Byte>) returns (result: seq<TinyProtocol>)
    requires server.Valid() && server.myState == TcpState.Connected
    requires DecodeWindow(ReadAll(server.myRecvBuffer.State(), chunk)).Done?
    modifies server`myState, server.myRecvBuffer, server.myRecvBuffer.myBuffer
    ensures server.Valid() && server.myState == TcpState.Connected
    ensures server.myRecvBuffer.myBuffer == old(server.myRecvBuffer.myBuffer) || fresh(server.myRecvBuffer.myBuffer)
    ensures var o := DecodeWindow(ReadAll(old(server.myRecvBuffer.State()), chunk));
      AllDecoded(result, o.msgs) && server.myRecvBuffer.State() == o.window
    ensures forall p :: p in result ==> fresh(p)
  {
    hide DecodeWindow, ReadAll, Decoded;
    var goOn := server.ReadOrClose(chunk, false);
    ghost var pushed;
    result, pushed := Decode([], server.myRecvBuffer);
    assert result == pushed;
  }

  /** A client connection that is handed the chunks one by one runs, in sum, the callbacks for the
      messages of the whole stream. */
  method ReceiveAll(connection: TcpConnection, chunks: seq<seq<Byte>>) returns (ran: seq<Ran>)
    requires connection.Valid() && connection.isClient && connection.myState == TcpState.Connected
    requires Deliver(connection.myRecvBuffer.State(), chunks).Done?
    modifies connection, connection.myRecvBuffer, connection.myRecvBuffer.myBuffer
    ensures connection.Valid()
    ensures Replies(ran, connection.myRecvCbCollection) ==
            RunCallbacks(old(connection.myRecvCbCollection), Deliver(old(connection.myRecvBuffer.State()), chunks).msgs)
    decreases |chunks|
  {
    hide DecodeWindow, ReadAll;
    if chunks == [] {
      return [];
    }
    ghost var s := connection.myRecvBuffer.State();
    ghost var o := DecodeWindow(ReadAll(s, chunks[0]));
    ran := connection.OnRead(chunks[0], false);
    ghost var rest := Deliver(connection.myRecvBuffer.State(), chunks[1..]);
    RunCallbacksTwice(old(connection.myRecvCbCollection), o.msgs, rest.msgs);
    var more := ReceiveAll(connection, chunks[1..]);
    ran := ran + more;
  }
}
