/** Finding the service method for a request and building the reply (net/rpc/rpc_dispatcher.cc). */
module RpcDispatchers {
  import opened Bytes
  import opened Wrappers
  import opened ErrorCodes
  import opened TcpBuffers
  import opened TinyPB
  import opened TinyPBLemmas
  import opened TinyPBCoder
  import opened TcpConnections

  type Name = seq<Byte>

  const DOT: Byte := 46

  function Ascii(s: string): (b: seq<Byte>)
    ensures |b| == |s| && forall i :: 0 <= i < |s| ==> b[i] == s[i] as int % 256
  {
    seq(|s|, i requires 0 <= i < |s| => s[i] as int % 256)
  }

  /** A service is what its methods make of the request bytes: they do not parse, or there is a response
      message, which may refuse to be serialized. */
  datatype Answer = Unparsable | Response(data: seq<Byte>) | Unserializable

  datatype Service = Service(fullName: Name, methods: map<Name, seq<Byte> -> Answer>)

  // ---------------------------------------------------------------------------------------------
  // Names

  function FindDot(s: Name): (i: nat)
    ensures i <= |s| && DOT !in s[..i] && (i < |s| ==> s[i] == DOT)
  {
    if s == [] || s[0] == DOT then 0
    else
      var i := 1 + FindDot(s[1..]);
      assert s[..i] == [s[0]] + s[1..][..i - 1];
      i
  }

  /** The full name is split at its first dot. */
  function ParseServiceFullName(fullName: Name): Option<(Name, Name)> {
    var i := FindDot(fullName);
    if i == |fullName| then None else Some((fullName[..i], fullName[i + 1..]))
  }

  /** A client asks for <service full name>.<method>. The dispatcher takes that name apart again exactly
      when the service's own full name has no dot, that is, when the service is in no package. */
  lemma NameIsRecovered(service: Name, methodName: Name)
    ensures ParseServiceFullName(service + [DOT] + methodName) == Some((service, methodName)) <==> DOT !in service
  {
    var s := service + [DOT] + methodName;
    var i := FindDot(s);
    assert s[|service|] == DOT;
    if i < |service| {
      assert s[i] == service[i];
    } else if i > |service| {
      assert false;
    } else {
      assert s[..i] == service && s[i + 1..] == methodName;
    }
  }

  // ---------------------------------------------------------------------------------------------
  // Dispatching

  /** Refused: the response is filled in but never sent. Called: the service has a closure that, each
      time it runs, sends `reply`. */
  datatype Dispatched = Refused(response: Message) | Called(reply: Message)

  function ErrorReply(request: Message, code: Int32, info: string): Message {
    Message(request.id, request.methodName, code, Ascii(info), [])
  }

  function DispatchResult(services: map<Name, Service>, request: Message): Dispatched {
    var names := ParseServiceFullName(request.methodName);
    if names.None? then Refused(ErrorReply(request, ERROR_PARSE_SERVICE_NAME, "parse service name error!"))
    else if names.value.0 !in services then Refused(ErrorReply(request, ERROR_SERVICE_NOT_FOUND, "service not found"))
    else
      var service := services[names.value.0];
      if names.value.1 !in service.methods
      then Refused(ErrorReply(request, ERROR_METHOD_NOT_FOUND, "mothed not found"))
      else
        match service.methods[names.value.1](request.pbData)
        case Unparsable => Refused(ErrorReply(request, ERROR_FAILED_DESERIALIZE, "deserilize error"))
        case Response(data) => Called(Message(request.id, request.methodName, 0, [], data))
        case Unserializable => Called(ErrorReply(request, ERROR_FAILED_SERIALIZE, "serialize error"))
  }

  /** Whatever comes of a request, its response carries the request's id and method name. */
  lemma ResponseIsCorrelated(services: map<Name, Service>, request: Message)
    ensures var d := DispatchResult(services, request);
      var m := if d.Refused? then d.response else d.reply;
      m.id == request.id && m.methodName == request.methodName
  {
  }

  /** What the dispatcher makes of a request that names service s and method m. Each check is reached only
      if those before it succeed, and decides by itself. */
  lemma DispatchedExactly(services: map<Name, Service>, request: Message, s: Name, m: Name)
    requires request.methodName == s + [DOT] + m && DOT !in s
    ensures var d := DispatchResult(services, request);
      var refusal := (code: Int32, info: string) =>
        Refused(Message(request.id, request.methodName, code, Ascii(info), []));
      && (d == refusal(10000008, "service not found") <==> s !in services)
      && (d == refusal(10000009, "mothed not found") <==> s in services && m !in services[s].methods)
      && (d == refusal(10000003, "deserilize error") <==>
            s in services && m in services[s].methods && services[s].methods[m](request.pbData).Unparsable?)
      && (d.Called? <==>
            s in services && m in services[s].methods && !services[s].methods[m](request.pbData).Unparsable?)
  {
    NameIsRecovered(s, m);
  }

  lemma UnnamedIsRefused(services: map<Name, Service>, request: Message)
    ensures '.' as int !in request.methodName <==>
      DispatchResult(services, request) ==
      Refused(Message(request.id, request.methodName, 10000010, Ascii("parse service name error!"), []))
  {
    var i := FindDot(request.methodName);
    if i == |request.methodName| {
      assert request.methodName[..i] == request.methodName;
    } else {
      assert request.methodName[i] == DOT;
    }
  }

  /** The reply to a call carries what the service makes of the request's payload. */
  lemma ReplyCarriesAnswer(services: map<Name, Service>, request: Message, s: Name, m: Name)
    requires request.methodName == s + [DOT] + m && DOT !in s && s in services && m in services[s].methods
    ensures var answer := services[s].methods[m](request.pbData);
      && (answer.Response? ==>
            DispatchResult(services, request) == Called(Message(request.id, request.methodName, 0, [], answer.data)))
      && (answer.Unserializable? ==>
            DispatchResult(services, request) ==
            Called(Message(request.id, request.methodName, 10000004, Ascii("serialize error"), [])))
  {
    NameIsRecovered(s, m);
  }

  function Registered(services: map<Name, Service>, service: Service): map<Name, Service> {
    services[service.fullName := service]
  }

  /** A method of a registered service is called by the name its clients use, if the service is in no
      package; otherwise the name never leads to that service's entry. */
  lemma RegisteredIsCallable(services: map<Name, Service>, service: Service, methodName: Name, request: Message)
    requires methodName in service.methods && request.methodName == service.fullName + [DOT] + methodName
    ensures DOT !in service.fullName ==>
      (DispatchResult(Registered(services, service), request).Called? <==>
       service.methods[methodName](request.pbData) != Unparsable)
    ensures DOT in service.fullName ==>
      DispatchResult(Registered(services, service), request) == DispatchResult(services, request)
  {
    NameIsRecovered(service.fullName, methodName);
    if DOT in service.fullName {
      var i := FindDot(request.methodName);
      var j := FindDot(service.fullName);
      assert request.methodName[j] == DOT;
      assert i <= j;
      assert |request.methodName[..i]| < |service.fullName|;
    }
  }

  /** A refused request has its error in the response and no closure; a called one has a closure whose
      runs will complete the response to the reply. */
  predicate Answered(d: Dispatched, response: Message, closure: Option<Answer>) {
    match d
    case Refused(r) => closure.None? && response == r
    case Called(reply) => closure.Some? && closure.value != Unparsable && ReplyOf(response, closure.value) == reply
  }

  lemma AnsweredMeans(d: Dispatched, response: Message, closure: Option<Answer>)
    ensures Answered(d, response, closure) <==>
      match d
      case Refused(r) => closure == None && response == r
      case Called(reply) => closure.Some? && closure.value != Unparsable && ReplyOf(response, closure.value) == reply
  {
  }

  class RpcDispatcher {
    var myServiceMap: map<Name, Service>

    constructor ()
      ensures myServiceMap == map[]
    {
      myServiceMap := map[];
    }

    method RegisterService(service: Service)
      modifies this
      ensures myServiceMap == Registered(old(myServiceMap), service)
    {
      myServiceMap := myServiceMap[service.fullName := service];
    }

    static method SetTinyPBError(msg: TinyProtocol, errorCode: Int32, errorInfo: string)
      modifies msg`myErrorCode, msg`myErrorInfo, msg`myErrorInfoLen
      ensures msg.myErrorCode == errorCode && msg.myErrorInfo == Ascii(errorInfo)
      ensures msg.myErrorInfoLen == |errorInfo|
    {
      msg.myErrorCode := errorCode;
      msg.myErrorInfo := Ascii(errorInfo);
      msg.myErrorInfoLen := |errorInfo|;
    }

    /** Dispatch up to the service call. The answer the service will have is handed to the closure. */
    method Dispatch(request: TinyProtocol, response: TinyProtocol) returns (closure: Option<Answer>)
      requires request != response && response.View() == Message([], [], 0, [], [])
      modifies response
      ensures match DispatchResult(myServiceMap, request.View())
        case Refused(r) => closure == None && response.View() == r
        case Called(reply) =>
          closure.Some? && closure.value != Unparsable && ReplyOf(response.View(), closure.value) == reply
    {
      closure := None;
      response.myMessageID := request.myMessageID;
      response.myMethodName := request.myMethodName;
      var names := ParseServiceFullName(request.myMethodName);
      if names.None? {
        SetTinyPBError(response, ERROR_PARSE_SERVICE_NAME, "parse service name error!");
        return;
      }
      var (serviceName, methodName) := names.value;
      if serviceName !in myServiceMap {
        SetTinyPBError(response, ERROR_SERVICE_NOT_FOUND, "service not found");
        return;
      }
      var service := myServiceMap[serviceName];
      if methodName !in service.methods {
        SetTinyPBError(response, ERROR_METHOD_NOT_FOUND, "mothed not found");
        return;
      }
      var answer := service.methods[methodName](request.myPBData);
      if answer.Unparsable? {
        SetTinyPBError(response, ERROR_FAILED_DESERIALIZE, "deserilize error");
        return;
      }
      closure := Some(answer);
    }

    /** The server branch of OnExcute: every decoded request is dispatched with a response of its own. */
    method OnExcute(connection: TcpConnection)
      returns (responses: seq<TinyProtocol>, closures: seq<Option<Answer>>)
      requires connection.Valid() && DecodeWindow(connection.myRecvBuffer.State()).Done?
      modifies connection.myRecvBuffer
      ensures connection.Valid()
      ensures connection.myRecvBuffer.State() == DecodeWindow(old(connection.myRecvBuffer.State())).window
      ensures var msgs := DecodeWindow(old(connection.myRecvBuffer.State())).msgs;
        && |responses| == |closures| == |msgs|
        && forall k :: 0 <= k < |msgs| ==>
             fresh(responses[k]) && Answered(DispatchResult(myServiceMap, msgs[k]), responses[k].View(), closures[k])
    {
      hide DecodeWindow, DispatchResult, Answered;
      ghost var msgs := DecodeWindow(connection.myRecvBuffer.State()).msgs;
      var result, pushed := Decode([], connection.myRecvBuffer);
      assert result == pushed;
      responses, closures := DispatchAll(result, msgs);
    }

    /** The loop over the decoded requests. */
    method DispatchAll(result: seq<TinyProtocol>, ghost msgs: seq<Message>)
      returns (responses: seq<TinyProtocol>, closures: seq<Option<Answer>>)
      requires AllDecoded(result, msgs)
      ensures |responses| == |closures| == |msgs|
      ensures forall k :: 0 <= k < |msgs| ==>
        fresh(responses[k]) && Answered(DispatchResult(myServiceMap, msgs[k]), responses[k].View(), closures[k])
    {
      hide DispatchResult, Answered;
      responses, closures := [], [];
      for i := 0 to |result|
        invariant |responses| == |closures| == i
        invariant forall k :: 0 <= k < i ==> fresh(responses[k]) && responses[k] !in result
        invariant forall k :: 0 <= k < i ==>
          Answered(DispatchResult(myServiceMap, msgs[k]), responses[k].View(), closures[k])
      {
        assert Decoded(result[i], msgs[i]);
        var message := new TinyProtocol();
        var closure := Dispatch(result[i], message);
        AnsweredMeans(DispatchResult(myServiceMap, msgs[i]), message.View(), closure);
        responses, closures := responses + [message], closures + [closure];
      }
    }

    /** OnRead of a server: the read loop of a client's, then the requests are dispatched. */
    method OnRead(connection: TcpConnection, kernel: seq<Byte>, peerClosed: bool)
      returns (responses: seq<TinyProtocol>, closures: seq<Option<Answer>>)
      requires connection.Valid()
      requires connection.myState == Connected ==>
        var s := ReadAll(connection.myRecvBuffer.State(), kernel);
        (peerClosed && s.Contents() == connection.myRecvBuffer.Contents()) || DecodeWindow(s).Done?
      modifies connection`myState, connection.myRecvBuffer, connection.myRecvBuffer.myBuffer
      ensures connection.Valid()
      ensures old(connection.myState) != Connected ==> responses == [] && unchanged(connection.myRecvBuffer)
      ensures old(connection.myState) == Connected ==>
        var s := ReadAll(old(connection.myRecvBuffer.State()), kernel);
        if peerClosed && s.Contents() == old(connection.myRecvBuffer.Contents())
        then responses == [] && connection.myState == Closed
        else
          && connection.myState == Connected && connection.myRecvBuffer.State() == DecodeWindow(s).window
          && |responses| == |closures| == |DecodeWindow(s).msgs|
          && forall k :: 0 <= k < |responses| ==>
               Answered(DispatchResult(myServiceMap, DecodeWindow(s).msgs[k]), responses[k].View(), closures[k])
    {
      hide DecodeWindow, ReadAll, DispatchResult, Answered;
      responses, closures := [], [];
      var goOn := connection.ReadOrClose(kernel, peerClosed);
      if goOn {
        responses, closures := OnExcute(connection);
      }
    }

    /** The closure handed to the service. It may run any number of times; each run sends the reply. */
    static method RunClosure(answer: Answer, response: TinyProtocol, connection: TcpConnection)
      requires connection.Valid() && answer != Unparsable
      requires PackageLen(WithId(ReplyOf(response.View(), answer))) < INT32_LIMIT
      modifies response, connection.mySendBuffer, connection.mySendBuffer.myBuffer
      ensures connection.Valid()
      ensures connection.mySendBuffer.Contents() ==
              old(connection.mySendBuffer.Contents()) + Frame(ReplyOf(old(response.View()), answer))
      ensures response.View() == WithId(ReplyOf(old(response.View()), answer))
    {
      match answer {
        case Unserializable =>
          response.myPBData := [];
          SetTinyPBError(response, ERROR_FAILED_SERIALIZE, "serialize error");
        case Response(data) =>
          response.myPBData := data;
          response.myErrorCode := 0;
          response.myErrorInfo := [];
      }
      hide Frame, WithId, Frames;
      ghost var reply := response.View();
      assert reply == ReplyOf(old(response.View()), answer);
      hide ReplyOf;
      assert Views([response]) == [reply];
      FramesOne(reply);
      connection.ReplyRPCResponse([response]);
    }
  }

  lemma FramesOne(m: Message)
    ensures Frames([m]) == Frame(m)
  {
    hide Frame;
    assert [m][1..] == [] && Frame(m) + [] == Frame(m);
  }

  lemma ReplyOfIs(response: Message, answer: Answer)
    requires answer != Unparsable
    ensures var reply := ReplyOf(response, answer);
      && reply.id == response.id && reply.methodName == response.methodName
      && (answer.Response? ==> reply.pbData == answer.data && reply.errorCode == 0 && reply.errorInfo == [])
      && (answer.Unserializable? ==>
            reply.pbData == [] && reply.errorCode == 10000004 && reply.errorInfo == Ascii("serialize error"))
  {
  }

  /** The response as the closure sends it. */
  function ReplyOf(response: Message, answer: Answer): Message
    requires answer != Unparsable
  {
    match answer
    case Unserializable =>
      response.(pbData := [], errorCode := ERROR_FAILED_SERIALIZE, errorInfo := Ascii("serialize error"))
    case Response(data) => response.(pbData := data, errorCode := 0, errorInfo := [])
  }
}
