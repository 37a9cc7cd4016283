/** The channel object of src/rpc/rpc_channel.cpp: one remote call, with the controller's fields and the
    callbacks it hands to its timer and its connection. Its methods are the steps of RpcClient. */
module RpcChannels {
  import opened Bytes
  import opened TinyPB
  import Connections
  import Dispatcher
  import opened Options
  import opened RpcClient

  /** The controller given to `CallMethod`: not one of this library, the one the channel was initialised
      with, or another one. */
  datatype Controller = Foreign | Initialised | Another

  /** The error that keeps a call from starting, zero if there is none: the first of the three that applies. */
  function StartError(controller: Controller, noConnection: bool, isInit: bool, serialized: Option<bytes>): int32 {
    if controller.Foreign? then 0
    else if noConnection then Dispatcher.ERROR_FAILED_CONNECT
    else if !isInit then Dispatcher.ERROR_RPC_CHANNEL_INIT
    else if serialized.None? then Dispatcher.ERROR_FAILED_SERIALIZE
    else 0
  }

  class RpcChannel {
    var isInit: bool
    var hasClosure: bool
    var sameController: bool
    var request: Message
    var timerPending: bool
    var timerCancelled: bool
    var isCanceled: bool
    var errorCode: int32
    var response: Option<bytes>
    ghost var pushed: bool
    ghost var runs: seq<Seen>
    ghost var firstReply: Option<Message>

    ghost function AsCall(): Call
      reads this
    {
      Call(request, hasClosure, sameController, pushed, timerPending, timerCancelled, isCanceled, errorCode, response,
           runs, firstReply)
    }

    /** No call has been made on this channel and the controller is as constructed. */
    ghost predicate Unused()
      reads this
    {
      && !pushed && !timerPending && !timerCancelled && !isCanceled && errorCode == 0
      && response == None && runs == [] && firstReply == None
    }

    constructor ()
      ensures Unused() && !isInit && !hasClosure
    {
      isInit, hasClosure, sameController, request := false, false, true, Message(0, [], [], 0, [], 0);
      timerPending, timerCancelled, isCanceled, errorCode, response := false, false, false, 0, None;
      pushed, runs, firstReply := false, [], None;
    }

    /** Only the first call has an effect. */
    method Init(done: bool)
      modifies this`isInit, this`hasClosure
      ensures isInit && hasClosure == if old(isInit) then old(hasClosure) else done
    {
      if isInit {
        return;
      }
      hasClosure := done;
      isInit := true;
    }

    /** Adds the timer, whose event takes the place of an earlier one that goes on without the channel, and
        queues the request after it. */
    method Start(conn: Connections.Connection<Done>, req: Message, same: bool)
      modifies this, conn`writeDones, conn`writing
      ensures runs == old(runs) && firstReply == old(firstReply) && hasClosure == old(hasClosure)
      ensures isInit == old(isInit) && isCanceled == old(isCanceled)
      ensures response == old(response) && errorCode == old(errorCode)
      ensures request == req && sameController == same && pushed && timerPending && !timerCancelled
      ensures conn.writeDones == old(conn.writeDones) + [(req, ForCall(req.msgId))] && conn.writing
    {
      sameController := same;
      request := req;
      timerPending := true;
      timerCancelled := false;
      pushed := true;
      conn.PushSendMessage(request, ForCall(req.msgId));
      conn.writing := true;
    }

    /** Starts the call. A foreign controller ends it at once; a missing connection, an uninitialised channel
        or a request that does not serialize only sets the controller's error; so neither the timer nor the
        connection will run the closure. Otherwise the timer is added first and the request queued after it. */
    method CallMethod(controller: Controller, conn: Connections.Connection?<Done>, id: bytes, methodName: bytes,
                      serialized: Option<bytes>)
      modifies this
      modifies if conn == null then {} else {conn}
      ensures conn != null ==> unchanged(conn`readDones, conn`disConnect, conn`reading, conn`submitted, conn`written,
                                         conn`received, conn`decoded, conn`strayed)
      ensures runs == old(runs) && firstReply == old(firstReply) && hasClosure == old(hasClosure)
      ensures isInit == old(isInit) && isCanceled == old(isCanceled) && response == old(response)
      ensures !controller.Foreign? ==>
        && (conn == null ==> errorCode == 1000_0001)
        && (conn != null && !old(isInit) ==> errorCode == 1000_0011)
        && (conn != null && old(isInit) && serialized.None? ==> errorCode == 1000_0004)
      ensures var error := StartError(controller, conn == null, old(isInit), serialized);
        if controller.Foreign? || error != 0 then
          && errorCode == (if error != 0 then error else old(errorCode))
          && request == old(request) && pushed == old(pushed) && sameController == old(sameController)
          && timerPending == old(timerPending) && timerCancelled == old(timerCancelled)
          && (conn != null ==> conn.writeDones == old(conn.writeDones) && conn.writing == old(conn.writing))
        else
          && errorCode == old(errorCode) && request == Message(0, id, methodName, 0, serialized.value, 0)
          && pushed && timerPending && !timerCancelled && sameController == controller.Initialised?
          && conn.writeDones == old(conn.writeDones) + [(request, ForCall(id))] && conn.writing
          && (old(Unused()) ==> AsCall() == NewCall(request, hasClosure, sameController).(pushed := true))
    {
      if controller.Foreign? {
        return;
      }
      if conn == null {
        errorCode := Dispatcher.ERROR_FAILED_CONNECT;
        return;
      }
      if !isInit {
        errorCode := Dispatcher.ERROR_RPC_CHANNEL_INIT;
        return;
      }
      if serialized.None? {
        errorCode := Dispatcher.ERROR_FAILED_SERIALIZE;
        return;
      }
      Start(conn, Message(0, id, methodName, 0, serialized.value, 0), controller.Initialised?);
    }

    /** `closure_->Run()`. */
    method RunClosure()
      modifies this`runs
      ensures AsCall() == old(RpcClient.RunClosure(AsCall()))
    {
      if hasClosure {
        runs := runs + [Seen(errorCode, response)];
      }
    }

    method HandleTimeout()
      modifies this`isCanceled, this`errorCode, this`runs
      ensures isCanceled && errorCode == 1000_0007
      ensures runs == old(runs) + if hasClosure then [Seen(1000_0007, response)] else []
      ensures AsCall() == old(OnTimeout(AsCall()))
    {
      isCanceled := true;
      errorCode := Dispatcher.ERROR_RPC_CALL_TIMEOUT;
      RunClosure();
    }

    /** Once a request has been taken for sending, the reply callback is registered under the id of that
        request, which need not be the newest of the channel. */
    method HandleSent(conn: Connections.Connection<Done>, sent: Message)
      modifies conn`readDones, conn`reading
      ensures conn.reading
      ensures conn.readDones == if sent.msgId in old(conn.readDones) then old(conn.readDones)
                                else old(conn.readDones)[sent.msgId := ForCall(sent.msgId)]
    {
      conn.PushReadMessage(sent.msgId, ForCall(sent.msgId));
      conn.reading := true;
    }

    method HandleReply(rsp: Message, parses: Parsing)
      modifies this`timerCancelled, this`errorCode, this`response, this`runs, this`firstReply
      ensures AsCall() == OnReply(old(AsCall()), rsp, parses)
      ensures timerCancelled && firstReply == if old(firstReply).None? then Some(rsp) else old(firstReply)
      ensures !parses(request.methodName, rsp.pbData) ==>
        errorCode == 1000_0004 && response == old(response) && runs == old(runs)
      ensures parses(request.methodName, rsp.pbData) ==>
        && response == Some(rsp.pbData) && errorCode == (if rsp.errorCode != 0 then rsp.errorCode else old(errorCode))
        && runs == old(runs) + if hasClosure && !(isCanceled && sameController) then [Seen(errorCode, response)] else []
    {
      timerCancelled := true;
      firstReply := if firstReply.None? then Some(rsp) else firstReply;
      if !parses(request.methodName, rsp.pbData) {
        errorCode := Dispatcher.ERROR_FAILED_SERIALIZE;
        return;
      }
      response := Some(rsp.pbData);
      if rsp.errorCode != 0 {
        errorCode := rsp.errorCode;
      }
      if !(isCanceled && sameController) {
        RunClosure();
      }
    }
  }
}
