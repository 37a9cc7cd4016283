/** Server-side dispatch (src/rpc/rpc_dispatcher.cpp) and the reply loop of src/net/TcpServer.cpp. */
module Dispatcher {
  import opened Bytes
  import opened TinyPB

  const ERROR_FAILED_CONNECT: int32 := 1000_0001
  const ERROR_FAILED_DESERIALIZE: int32 := 1000_0003
  const ERROR_FAILED_SERIALIZE: int32 := 1000_0004
  const ERROR_RPC_CALL_TIMEOUT: int32 := 1000_0007
  const ERROR_SERVICE_NOT_FOUND: int32 := 1000_0008
  const ERROR_PARSE_SERVICE_NAME: int32 := 1000_0010
  const ERROR_RPC_CHANNEL_INIT: int32 := 1000_0011

  const DOT: byte := 0x2E
  const HEARTBEAT: int8 := 1

  /** What a service method makes of the request bytes: they do not parse, the response does not
      serialize (leaving `pbData` behind), or the serialized response. */
  datatype Outcome = Unparsable | Unserializable(pbData: bytes) | Served(pbData: bytes)

  /** Service bodies are arbitrary deterministic functions of the request bytes. */
  datatype Service = Service(methods: map<bytes, bytes -> Outcome>)

  type Services = map<bytes, Service>

  datatype ServiceMethod = NoName | ServiceMethod(service: bytes, name: bytes)

  /** Position of the first dot, `|s|` if there is none. */
  function FirstDot(s: bytes): (i: nat)
    ensures i <= |s| && (forall k :: 0 <= k < i ==> s[k] != DOT) && (i < |s| ==> s[i] == DOT)
  {
    if s == [] || s[0] == DOT then 0
    else 1 + FirstDot(s[1..])
  }

  /** The name before and after the first dot. */
  function ParseServiceFullName(fullName: bytes): ServiceMethod {
    var i := FirstDot(fullName);
    if i == |fullName| then NoName else ServiceMethod(fullName[..i], fullName[i + 1..])
  }

  /** The response to a request: the heartbeat's and the failures' responses carry no payload. */
  function Respond(services: Services, req: Message): Message {
    var r := Message(req.msgType, req.msgId, req.methodName, 0, [], 0);
    var n := ParseServiceFullName(req.methodName);
    if req.msgType == HEARTBEAT then r
    else if n.NoName? then r.(errorCode := ERROR_PARSE_SERVICE_NAME)
    else if n.service !in services || n.name !in services[n.service].methods
    then r.(errorCode := ERROR_SERVICE_NOT_FOUND)
    else match services[n.service].methods[n.name](req.pbData)
         case Unparsable => r.(errorCode := ERROR_FAILED_DESERIALIZE)
         case Unserializable(d) => r.(errorCode := ERROR_FAILED_SERIALIZE, pbData := d)
         case Served(d) => r.(pbData := d)
  }

  function RespondAll(services: Services, reqs: seq<Message>): (rs: seq<Message>)
    ensures |rs| == |reqs|
  {
    seq(|reqs|, i requires 0 <= i < |reqs| => Respond(services, reqs[i]))
  }

  /** Fills the fields of a response that starts out empty, returning early where the source does. */
  method Dispatch(services: Services, req: Message) returns (rsp: Message)
    ensures rsp == Respond(services, req)
  {
    rsp := Message(0, [], [], 0, [], 0);
    rsp := rsp.(msgType := req.msgType);
    rsp := rsp.(msgId := req.msgId);
    rsp := rsp.(methodName := req.methodName);
    if rsp.msgType == HEARTBEAT {
      return;
    }
    var names := ParseServiceFullName(req.methodName);
    if names.NoName? {
      rsp := rsp.(errorCode := ERROR_PARSE_SERVICE_NAME);
      return;
    }
    if names.service !in services {
      rsp := rsp.(errorCode := ERROR_SERVICE_NOT_FOUND);
      return;
    }
    var service := services[names.service];
    if names.name !in service.methods {
      rsp := rsp.(errorCode := ERROR_SERVICE_NOT_FOUND);
      return;
    }
    match service.methods[names.name](req.pbData) {
      case Unparsable =>
        rsp := rsp.(errorCode := ERROR_FAILED_DESERIALIZE);
      case Unserializable(d) =>
        rsp := rsp.(pbData := d);
        rsp := rsp.(errorCode := ERROR_FAILED_SERIALIZE);
      case Served(d) =>
        rsp := rsp.(pbData := d);
        rsp := rsp.(errorCode := 0);
    }
  }

  /** One reply per request, in batch order. */
  method OnMessage(services: Services, requests: seq<Message>) returns (replies: seq<Message>)
    ensures replies == RespondAll(services, requests)
  {
    replies := [];
    for i := 0 to |requests|
      invariant replies == RespondAll(services, requests[..i])
    {
      var message := Dispatch(services, requests[i]);
      replies := replies + [message];
    }
    assert requests[..|requests|] == requests;
  }

  /** The first dot of `service.name` is the one that joins them exactly when `service` has none. A service
      whose registered full name contains a dot, as one in a protobuf package does, is never found. */
  lemma NameIsRecovered(service: bytes, name: bytes)
    ensures ParseServiceFullName(service + [DOT] + name) == ServiceMethod(service, name) <==> DOT !in service
  {
    var full := service + [DOT] + name;
    var i := FirstDot(full);
    assert full[|service|] == DOT;
    assert i <= |service|;
    assert i < |service| ==> full[i] == service[i];
    assert forall k :: 0 <= k < |service| ==> service[k] == full[k];
    if DOT !in service {
      assert i == |service|;
      assert full[..i] == service && full[i + 1..] == name;
    }
  }

  /** Every response answers its own request: same id, type and method name. It reports success exactly
      for a heartbeat and for a call of a registered method that served it, and then carries what that
      method produced. */
  lemma ResponseIsForRequest(services: Services, req: Message)
    ensures var r := Respond(services, req);
      && r.msgId == req.msgId && r.msgType == req.msgType && r.methodName == req.methodName
      && (r.errorCode == 0 <==> req.msgType == HEARTBEAT || exists s, n {:trigger s + [DOT] + n} ::
            && DOT !in s && s + [DOT] + n == req.methodName
            && s in services && n in services[s].methods
            && services[s].methods[n](req.pbData) == Served(r.pbData))
  {
    var r := Respond(services, req);
    var names := ParseServiceFullName(req.methodName);
    if names.ServiceMethod? {
      var i := FirstDot(req.methodName);
      assert names.service + [DOT] + names.name == req.methodName;
    }
    forall s, n | DOT !in s && s + [DOT] + n == req.methodName
      ensures names == ServiceMethod(s, n)
    {
      NameIsRecovered(s, n);
    }
  }

  /** The methods a full name can stand for: those of a registered service whose name ends at the first dot. */
  ghost predicate Names(services: Services, fullName: bytes, s: bytes, n: bytes) {
    DOT !in s && fullName == s + [DOT] + n && s in services && n in services[s].methods
  }

  /** Why a call fails: the error code tells a name without a dot, a name nobody registered, a payload the
      method does not parse, and a response that does not serialize apart. */
  lemma FailureIsExplained(services: Services, req: Message)
    requires req.msgType != HEARTBEAT
    ensures var r := Respond(services, req);
      && (r.errorCode == ERROR_PARSE_SERVICE_NAME <==> DOT !in req.methodName)
      && (r.errorCode == ERROR_SERVICE_NOT_FOUND <==>
           DOT in req.methodName && forall s, n :: !Names(services, req.methodName, s, n))
      && (r.errorCode == ERROR_PARSE_SERVICE_NAME || r.errorCode == ERROR_SERVICE_NOT_FOUND ==> r.pbData == [])
      && (forall s, n :: Names(services, req.methodName, s, n) ==>
           match services[s].methods[n](req.pbData)
           case Unparsable => r.errorCode == ERROR_FAILED_DESERIALIZE && r.pbData == []
           case Unserializable(d) => r.errorCode == ERROR_FAILED_SERIALIZE && r.pbData == d
           case Served(d) => r.errorCode == 0 && r.pbData == d)
  {
    var names := ParseServiceFullName(req.methodName);
    var i := FirstDot(req.methodName);
    if names.ServiceMethod? {
      assert req.methodName[i] == DOT;
      assert names.service + [DOT] + names.name == req.methodName;
      assert names.service in services && names.name in services[names.service].methods ==>
        Names(services, req.methodName, names.service, names.name);
    }
    forall s, n | Names(services, req.methodName, s, n)
      ensures names == ServiceMethod(s, n)
    {
      NameIsRecovered(s, n);
    }
  }

  /** A service in a protobuf package is registered under a name with a dot. A call of one of its methods reports
      that nothing was found, unless what precedes the first dot is the name of a service that has a method
      under all the rest; whether the service itself is registered does not matter. */
  lemma DottedServiceIsNotFound(services: Services, service: bytes, name: bytes, req: Message)
    requires DOT in service && req.methodName == service + [DOT] + name && req.msgType != HEARTBEAT
    ensures var i := FirstDot(service);
      i < |service| &&
      (Respond(services, req).errorCode == ERROR_SERVICE_NOT_FOUND
       <==> !(service[..i] in services && service[i + 1..] + [DOT] + name in services[service[..i]].methods))
  {
    hide FirstDot, ParseServiceFullName;
    DottedNameSplits(service, name);
  }

  /** A joined name is split at the first dot of a dotted service. */
  lemma DottedNameSplits(service: bytes, name: bytes)
    requires DOT in service
    ensures var i := FirstDot(service);
      i < |service| && ParseServiceFullName(service + [DOT] + name)
      == ServiceMethod(service[..i], service[i + 1..] + [DOT] + name)
  {
    hide FirstDot, ParseServiceFullName;
    var i := FirstDot(service);
    assert i < |service| by { var k :| 0 <= k < |service| && service[k] == DOT; }
    var first, rest := service[..i], service[i + 1..];
    CutAt(service, i);
    Regroup(first, rest, [DOT], name);
    NameIsRecovered(first, rest + [DOT] + name);
  }

  lemma CutAt(s: bytes, i: nat)
    requires i < |s|
    ensures s == s[..i] + [s[i]] + s[i + 1..]
  {
  }

  lemma Regroup(a: bytes, b: bytes, dot: bytes, c: bytes)
    ensures (a + dot + b) + dot + c == a + dot + (b + dot + c)
  {
  }

  // ---------------------------------------------------------------------------------------------
  // Responses in full, with the numbers of the protocol
  // ---------------------------------------------------------------------------------------------

  /** A call of a registered method, which is any message whose type is not 1, reaches the method; the response
      holds what it made of the payload. The service ends at the first 0x2E of the full name. */
  lemma CallIsServed(services: Services, req: Message, service: bytes, name: bytes)
    requires req.msgType != 1 && req.methodName == service + [0x2E] + name && 0x2E !in service
    requires service in services && name in services[service].methods
    ensures Respond(services, req) ==
      match services[service].methods[name](req.pbData)
      case Served(d) => Message(req.msgType, req.msgId, req.methodName, 0, d, 0)
      case Unparsable => Message(req.msgType, req.msgId, req.methodName, 1000_0003, [], 0)
      case Unserializable(d) => Message(req.msgType, req.msgId, req.methodName, 1000_0004, d, 0)
  {
    hide ParseServiceFullName;
    NameIsRecovered(service, name);
  }

  /** A call that reaches no method: the name has no 0x2E, or nothing is registered under its two parts. */
  lemma CallIsRefused(services: Services, req: Message)
    requires req.msgType != 1
    ensures 0x2E !in req.methodName ==>
      Respond(services, req) == Message(req.msgType, req.msgId, req.methodName, 1000_0010, [], 0)
    ensures forall service, name ::
      && 0x2E !in service && req.methodName == service + [0x2E] + name
      && !(service in services && name in services[service].methods)
      ==> Respond(services, req) == Message(req.msgType, req.msgId, req.methodName, 1000_0008, [], 0)
  {
    forall service, name | 0x2E !in service && req.methodName == service + [0x2E] + name
      ensures ParseServiceFullName(req.methodName) == ServiceMethod(service, name)
    {
      NameIsRecovered(service, name);
    }
  }

  /** A message of type 1 is a heartbeat and gets an empty success, whatever its name. */
  lemma HeartbeatIsAnswered(services: Services, req: Message)
    requires req.msgType == 1
    ensures Respond(services, req) == Message(1, req.msgId, req.methodName, 0, [], 0)
  {
  }
}
