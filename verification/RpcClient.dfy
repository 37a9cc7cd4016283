/** The life of remote calls on one client connection (src/rpc/rpc_channel.cpp, src/net/Connection.cpp):
    a state machine whose steps are the atomic blocks of the user thread and of the connection's loop.
    What the peer answers is arbitrary here: any messages, any number of times, in any order. */
module RpcClient {
  import opened Bytes
  import opened TinyPB
  import Connections
  import Dispatcher
  import opened Options

  /** Which payloads the response type of a method accepts. */
  type Parsing = (bytes, bytes) -> bool

  /** What a closure finds when it runs: the controller's error code and the response, if it was parsed. */
  datatype Seen = Seen(errorCode: int32, response: Option<bytes>)

  /** One call: its request, its timer event, its controller and whether the channel was initialised with
      that same controller, its response object, and the history of the closure's runs and of the first
      reply handed to its callback. */
  datatype Call = Call(
    request: Message,
    hasClosure: bool,
    sameController: bool,
    pushed: bool,
    timerPending: bool,
    timerCancelled: bool,
    isCanceled: bool,
    errorCode: int32,
    response: Option<bytes>,
    runs: seq<Seen>,
    firstReply: Option<Message>)

  function NewCall(request: Message, hasClosure: bool, sameController: bool): Call {
    Call(request, hasClosure, sameController, false, true, false, false, 0, None, [], None)
  }

  function RunClosure(c: Call): Call {
    if c.hasClosure then c.(runs := c.runs + [Seen(c.errorCode, c.response)]) else c
  }

  /** The timeout callback. */
  function OnTimeout(c: Call): Call {
    RunClosure(c.(isCanceled := true, errorCode := Dispatcher.ERROR_RPC_CALL_TIMEOUT))
  }

  predicate Parses(c: Call, rsp: Message, parses: Parsing) { parses(c.request.methodName, rsp.pbData) }

  /** The reply callback. The timeout cancels the controller of the call, and this asks the controller of the
      channel. */
  function OnReply(c: Call, rsp: Message, parses: Parsing): Call {
    var d := c.(timerCancelled := true, firstReply := if c.firstReply.None? then Some(rsp) else c.firstReply);
    if !Parses(c, rsp, parses) then d.(errorCode := Dispatcher.ERROR_FAILED_SERIALIZE)
    else
      var e := d.(response := Some(rsp.pbData), errorCode := if rsp.errorCode != 0 then rsp.errorCode else d.errorCode);
      if e.isCanceled && e.sameController then e else RunClosure(e)
  }

  /** Whose reply callback an entry of `read_dones_` is. */
  datatype Done = ForCall(id: bytes) | ForPing(id: bytes)

  datatype Client = Client(
    calls: map<bytes, Call>,
    pings: set<bytes>,
    writeDones: seq<(Message, Done)>,
    readDones: map<bytes, Done>)

  const IDLE: Client := Client(map[], {}, [], map[])

  function PingMessage(id: bytes): Message { Message(Dispatcher.HEARTBEAT, id, [], 0, [], 0) }

  predicate FreshId(s: Client, id: bytes) { id != [] && id !in s.calls && id !in s.pings }

  /** The steps: `CallMethod` adds the timer and, later, pushes the request; the keepalive round pushes a
      heartbeat and withdraws it; the loop flushes what was pushed, hands over a batch of replies, and
      serves a due timer. */
  datatype Step =
    | AddTimer(request: Message, hasClosure: bool, sameController: bool)
    | Push(id: bytes)
    | Ping(id: bytes)
    | PopPing(id: bytes)
    | Flush
    | Replies(ms: seq<Message>)
    | TimerDue(id: bytes)

  function Apply(calls: map<bytes, Call>, fired: seq<(Done, Message)>, parses: Parsing): map<bytes, Call>
    decreases |fired|
  {
    if fired == [] then calls
    else
      var (done, m) := fired[0];
      Apply(if done.ForCall? && done.id in calls then calls[done.id := OnReply(calls[done.id], m, parses)] else calls,
            fired[1..], parses)
  }

  /** A step that is not enabled changes nothing. */
  function Next(s: Client, step: Step, parses: Parsing): Client {
    match step
    case AddTimer(request, hasClosure, sameController) =>
      if FreshId(s, request.msgId) && Fits(request)
      then s.(calls := s.calls[request.msgId := NewCall(request, hasClosure, sameController)]) else s
    case Push(id) =>
      if id in s.calls && !s.calls[id].pushed
      then s.(calls := s.calls[id := s.calls[id].(pushed := true)],
              writeDones := s.writeDones + [(s.calls[id].request, ForCall(id))])
      else s
    case Ping(id) =>
      if FreshId(s, id) && Fits(PingMessage(id))
      then s.(pings := s.pings + {id}, writeDones := s.writeDones + [(PingMessage(id), ForPing(id))]) else s
    case PopPing(id) =>
      if id in s.pings then s.(readDones := s.readDones - {id}) else s
    case Flush =>
      s.(readDones := Connections.Register(s.readDones, s.writeDones), writeDones := [])
    case Replies(ms) =>
      var (fired, rest) := Connections.Match(s.readDones, ms);
      s.(readDones := rest, calls := Apply(s.calls, fired, parses))
    case TimerDue(id) =>
      if id in s.calls && s.calls[id].timerPending then
        var c := s.calls[id].(timerPending := false);
        s.(calls := s.calls[id := if c.timerCancelled then c else OnTimeout(c)])
      else s
  }

  function Run(s: Client, steps: seq<Step>, parses: Parsing): Client
    decreases |steps|
  {
    if steps == [] then s else Run(Next(s, steps[0], parses), steps[1..], parses)
  }

  // ---------------------------------------------------------------------------------------------
  // What every step keeps
  // ---------------------------------------------------------------------------------------------

  /** The call timed out, and a reply that parses came afterwards. */
  predicate LateReply(c: Call, parses: Parsing) {
    c.isCanceled && c.firstReply.Some? && Parses(c, c.firstReply.value, parses)
  }

  /** The runs a call must show: one for a timeout that fired, and one for a first reply that parsed, unless
      the timeout came before it and cancelled the controller that the reply callback asks. */
  function DueRuns(c: Call, parses: Parsing): seq<Seen> {
    if !c.hasClosure then []
    else
      (if c.isCanceled then [Seen(Dispatcher.ERROR_RPC_CALL_TIMEOUT, None)] else []) +
      (if c.firstReply.None? || !Parses(c, c.firstReply.value, parses) || (c.isCanceled && c.sameController) then []
       else [Seen(CodeAfter(c, c.firstReply.value), Some(c.firstReply.value.pbData))])
  }

  /** The error code after a reply that parses: the reply's, or what was there before it. */
  function CodeAfter(c: Call, rsp: Message): int32 {
    if rsp.errorCode == 0 && c.isCanceled then Dispatcher.ERROR_RPC_CALL_TIMEOUT else rsp.errorCode
  }

  ghost predicate CallOk(c: Call, parses: Parsing) {
    && c.runs == DueRuns(c, parses)
    && (c.isCanceled ==> !c.timerPending)
    && (!c.timerPending ==> c.isCanceled || c.timerCancelled)
    && (c.timerCancelled <==> c.firstReply.Some?)
    && (!c.pushed ==> c.firstReply.None?)
    && (!c.timerCancelled ==>
         c.errorCode == (if c.isCanceled then Dispatcher.ERROR_RPC_CALL_TIMEOUT else 0) && c.response == None)
    && (c.firstReply.Some? ==>
         var rsp := c.firstReply.value;
         if Parses(c, rsp, parses) then c.errorCode == CodeAfter(c, rsp) && c.response == Some(rsp.pbData)
         else c.errorCode == Dispatcher.ERROR_FAILED_SERIALIZE && c.response == None)
  }

  /** Call `id` has been pushed and no reply has reached it yet. */
  predicate Awaits(s: Client, id: bytes) {
    id in s.calls && s.calls[id].pushed && s.calls[id].firstReply.None?
  }

  ghost predicate Owner(s: Client, id: bytes, done: Done) {
    (done == ForCall(id) && Awaits(s, id)) || (done == ForPing(id) && id in s.pings)
  }

  ghost predicate CallsOk(s: Client, parses: Parsing) {
    forall id :: id in s.calls ==>
      && s.calls[id].request.msgId == id && id != [] && Fits(s.calls[id].request) && id !in s.pings
      && CallOk(s.calls[id], parses)
  }

  ghost predicate Ok(s: Client, parses: Parsing) {
    && CallsOk(s, parses)
    && (forall id :: id in s.pings ==> id != [] && Fits(PingMessage(id)))
    && (forall id :: id in s.readDones ==> Owner(s, id, s.readDones[id]))
    && (forall i :: 0 <= i < |s.writeDones| ==> Queued(s, s.writeDones[i]))
    && (forall i, j :: 0 <= i < j < |s.writeDones| ==> s.writeDones[i].0.msgId != s.writeDones[j].0.msgId)
  }

  /** An entry waiting to be sent: its owner's own message, not registered yet. */
  ghost predicate Queued(s: Client, entry: (Message, Done)) {
    var (m, done) := entry;
    && Owner(s, m.msgId, done) && m.msgId !in s.readDones
    && m == (if done.ForCall? then s.calls[m.msgId].request else PingMessage(m.msgId))
  }

  /** One reply: looked up, its callback run, its entry erased; unknown ids are dropped. */
  function Deliver(s: Client, m: Message, parses: Parsing): Client {
    if m.msgId !in s.readDones then s
    else
      var done := s.readDones[m.msgId];
      var calls := if done.ForCall? && done.id in s.calls
        then s.calls[done.id := OnReply(s.calls[done.id], m, parses)] else s.calls;
      s.(readDones := s.readDones - {m.msgId}, calls := calls)
  }

  lemma ReplyKeepsCallOk(c: Call, m: Message, parses: Parsing)
    requires CallOk(c, parses) && c.pushed && c.firstReply.None?
    ensures var d := OnReply(c, m, parses);
      && CallOk(d, parses) && d.firstReply == Some(m)
      && d.request == c.request && d.pushed == c.pushed
  {
  }

  lemma DeliverKeepsOk(s: Client, m: Message, parses: Parsing)
    requires Ok(s, parses)
    ensures Ok(Deliver(s, m, parses), parses)
  {
    hide Fits, OnReply, CallOk;
    if m.msgId in s.readDones && s.readDones[m.msgId].ForCall? {
      assert Owner(s, m.msgId, s.readDones[m.msgId]);
      ReplyKeepsCallOk(s.calls[m.msgId], m, parses);
    }
    var t := Deliver(s, m, parses);
    forall i | 0 <= i < |t.writeDones|
      ensures Queued(t, t.writeDones[i])
    {
      assert Queued(s, s.writeDones[i]);
    }
  }

  lemma {:induction false} RepliesKeepOk(s: Client, ms: seq<Message>, parses: Parsing)
    requires Ok(s, parses)
    ensures Ok(Next(s, Replies(ms), parses), parses)
    decreases |ms|
  {
    hide Ok;
    if ms != [] {
      DeliverKeepsOk(s, ms[0], parses);
      var t := Deliver(s, ms[0], parses);
      RepliesKeepOk(t, ms[1..], parses);
      RepliesOneByOne(s, ms, parses);
    }
  }

  lemma RepliesOneByOne(s: Client, ms: seq<Message>, parses: Parsing)
    requires ms != []
    ensures Next(s, Replies(ms), parses) == Next(Deliver(s, ms[0], parses), Replies(ms[1..]), parses)
  {
    if ms[0].msgId in s.readDones {
      var (fired, rest) := Connections.Match(s.readDones - {ms[0].msgId}, ms[1..]);
      var first := [(s.readDones[ms[0].msgId], ms[0])];
      assert (first + fired)[0] == first[0] && (first + fired)[1..] == fired;
    }
  }

  lemma {:induction false} FlushKeepsOk(s: Client, parses: Parsing)
    requires Ok(s, parses)
    ensures Ok(Next(s, Flush, parses), parses)
    decreases |s.writeDones|
  {
    if s.writeDones != [] {
      var (m, done) := s.writeDones[0];
      assert Queued(s, s.writeDones[0]);
      var t := s.(readDones := s.readDones[m.msgId := done], writeDones := s.writeDones[1..]);
      forall i | 0 <= i < |t.writeDones|
        ensures Queued(t, t.writeDones[i])
      {
        assert t.writeDones[i] == s.writeDones[i + 1] && Queued(s, s.writeDones[i + 1]);
      }
      FlushKeepsOk(t, parses);
    }
  }

  /** Queueing the message of an owner that is neither queued nor registered yet. */
  lemma EnqueueKeepsOk(s: Client, t: Client, entry: (Message, Done), parses: Parsing)
    requires Ok(s, parses) && t.readDones == s.readDones && t.writeDones == s.writeDones + [entry]
    requires s.pings <= t.pings
    requires forall id :: Awaits(s, id) ==> Awaits(t, id) && t.calls[id].request == s.calls[id].request
    requires CallsOk(t, parses)
    requires forall id :: id in t.pings ==> id != [] && Fits(PingMessage(id))
    requires Queued(t, entry) && !Awaits(s, entry.0.msgId) && entry.0.msgId !in s.pings
    ensures Ok(t, parses)
  {
    hide Fits, CallOk;
    forall i | 0 <= i < |t.writeDones|
      ensures Queued(t, t.writeDones[i])
      ensures i < |s.writeDones| ==> t.writeDones[i].0.msgId != entry.0.msgId
    {
      assert i < |s.writeDones| ==> Queued(s, s.writeDones[i]);
    }
  }

  lemma PushKeepsOk(s: Client, id: bytes, parses: Parsing)
    requires Ok(s, parses)
    ensures Ok(Next(s, Push(id), parses), parses)
  {
    hide Fits;
    if id in s.calls && !s.calls[id].pushed {
      var t := Next(s, Push(id), parses);
      assert id in s.readDones ==> Owner(s, id, s.readDones[id]);
      EnqueueKeepsOk(s, t, (s.calls[id].request, ForCall(id)), parses);
    }
  }

  lemma PingKeepsOk(s: Client, id: bytes, parses: Parsing)
    requires Ok(s, parses)
    ensures Ok(Next(s, Ping(id), parses), parses)
  {
    hide CallOk;
    if FreshId(s, id) && Fits(PingMessage(id)) {
      var t := Next(s, Ping(id), parses);
      assert id in s.readDones ==> Owner(s, id, s.readDones[id]);
      EnqueueKeepsOk(s, t, (PingMessage(id), ForPing(id)), parses);
    }
  }

  lemma NewCallOk(request: Message, hasClosure: bool, sameController: bool, parses: Parsing)
    ensures CallOk(NewCall(request, hasClosure, sameController), parses)
  {
  }

  lemma TimerKeepsCallOk(c: Call, parses: Parsing)
    requires CallOk(c, parses)
    ensures c.timerPending ==>
      var d := c.(timerPending := false);
      var e := if d.timerCancelled then d else OnTimeout(d);
      CallOk(e, parses) && e.request == c.request && e.pushed == c.pushed && e.firstReply == c.firstReply
  {
  }

  /** Steps that touch calls and registrations but not the queue. */
  lemma SameQueueKeepsOk(s: Client, t: Client, parses: Parsing)
    requires Ok(s, parses) && t.writeDones == s.writeDones && t.pings == s.pings
    requires forall id :: id in t.readDones ==> id in s.readDones && t.readDones[id] == s.readDones[id]
    requires forall id :: Awaits(s, id) ==> Awaits(t, id) && t.calls[id].request == s.calls[id].request
    requires CallsOk(t, parses)
    ensures Ok(t, parses)
  {
    hide Fits, CallOk;
    forall i | 0 <= i < |t.writeDones|
      ensures Queued(t, t.writeDones[i])
    {
      assert Queued(s, s.writeDones[i]);
    }
  }

  lemma OtherStepKeepsOk(s: Client, step: Step, parses: Parsing)
    requires Ok(s, parses) && (step.AddTimer? || step.PopPing? || step.TimerDue?)
    ensures Ok(Next(s, step, parses), parses)
  {
    hide Fits, CallOk, OnTimeout;
    if step.TimerDue? && step.id in s.calls {
      TimerKeepsCallOk(s.calls[step.id], parses);
    }
    if step.AddTimer? {
      NewCallOk(step.request, step.hasClosure, step.sameController, parses);
    }
    SameQueueKeepsOk(s, Next(s, step, parses), parses);
  }

  lemma NextKeepsOk(s: Client, step: Step, parses: Parsing)
    requires Ok(s, parses)
    ensures Ok(Next(s, step, parses), parses)
  {
    match step
    case Replies(ms) => RepliesKeepOk(s, ms, parses);
    case Flush => FlushKeepsOk(s, parses);
    case Push(id) => PushKeepsOk(s, id, parses);
    case Ping(id) => PingKeepsOk(s, id, parses);
    case _ => OtherStepKeepsOk(s, step, parses);
  }

  lemma {:induction false} RunKeepsOk(s: Client, steps: seq<Step>, parses: Parsing)
    requires Ok(s, parses)
    ensures Ok(Run(s, steps, parses), parses)
    decreases |steps|
  {
    hide Ok, Next;
    if steps != [] {
      NextKeepsOk(s, steps[0], parses);
      RunKeepsOk(Next(s, steps[0], parses), steps[1..], parses);
    }
  }

  // ---------------------------------------------------------------------------------------------
  // Closures
  // ---------------------------------------------------------------------------------------------

  /** In every interleaving of pushes, sends, replies, duplicate replies, heartbeats and timers, whatever
      the peer sends, a call's closure runs at most once if the channel was initialised with the controller
      of the call. With another controller it runs twice exactly if a reply that parses came after the
      timeout. The first run sees the timeout error and no response, or the error code and payload of the
      first reply that came with the call's id; a second one sees that payload. */
  lemma ClosureRunsAtMostOnce(steps: seq<Step>, parses: Parsing, id: bytes)
    requires id in Run(IDLE, steps, parses).calls
    ensures var c := Run(IDLE, steps, parses).calls[id];
      && |c.runs| <= 2
      && (|c.runs| == 2 <==> c.hasClosure && !c.sameController && LateReply(c, parses))
      && (c.runs != [] ==>
           || c.runs[0] == Seen(1000_0007, None)
           || (c.firstReply.Some? && c.runs[0] == Seen(c.firstReply.value.errorCode, Some(c.firstReply.value.pbData))))
      && (|c.runs| == 2 ==>
           && c.runs[0] == Seen(1000_0007, None)
           && c.runs[1] == Seen(CodeAfter(c, c.firstReply.value), Some(c.firstReply.value.pbData)))
  {
    RunKeepsOk(IDLE, steps, parses);
  }

  /** None if a reply that does not parse came before the timeout, two if one that parses came after it and the
      controllers differ, one otherwise. */
  function RunsWhenServed(c: Call, parses: Parsing): nat {
    if !c.isCanceled && c.firstReply.Some? && !Parses(c, c.firstReply.value, parses) then 0
    else if !c.sameController && LateReply(c, parses) then 2 else 1
  }

  /** What the controller and the response object of a call hold, at any time of any run, whether or not a closure
      has run: nothing before anything happened, the timeout's code after a timeout, and after a reply its payload
      and code, or the code for a payload that does not parse. */
  lemma ControllerHolds(steps: seq<Step>, parses: Parsing, id: bytes)
    requires id in Run(IDLE, steps, parses).calls
    ensures var c := Run(IDLE, steps, parses).calls[id];
      match c.firstReply
      case None => c.response == None && c.errorCode == (if c.isCanceled then 1000_0007 else 0)
      case Some(rsp) =>
        if !parses(c.request.methodName, rsp.pbData) then c.response == None && c.errorCode == 1000_0004
        else c.response == Some(rsp.pbData)
             && c.errorCode == if rsp.errorCode != 0 then rsp.errorCode else if c.isCanceled then 1000_0007 else 0
  {
    RunKeepsOk(IDLE, steps, parses);
  }

  /** A heartbeat is a message of type 1 with nothing but an id; it is queued once, and withdrawing it leaves
      nobody to whom its reply could be handed. */
  lemma PingIsSent(s: Client, id: bytes, parses: Parsing)
    requires id != [] && id !in s.calls && id !in s.pings && |id| <= 0x7FFF_FFFF - 23
    ensures var t := Next(s, Ping(id), parses);
      && t == s.(pings := s.pings + {id}, writeDones := s.writeDones + [(Message(1, id, [], 0, [], 0), ForPing(id))])
      && forall u: Client, rsp: Message :: id in u.pings && rsp.msgId == id ==>
           var v := Next(u, PopPing(id), parses);
           v == u.(readDones := u.readDones - {id}) && Deliver(v, rsp, parses) == v
  {
  }

  /** Once the timer of a call with a closure has been served, the closure has run, unless a reply whose
      payload does not parse came before the timeout; then, and only then, it never runs. */
  lemma ClosureRunsOnceWhenDrained(steps: seq<Step>, parses: Parsing, id: bytes)
    requires id in Run(IDLE, steps, parses).calls
    ensures var c := Run(IDLE, steps, parses).calls[id];
      c.hasClosure && !c.timerPending ==> |c.runs| == RunsWhenServed(c, parses)
  {
    RunKeepsOk(IDLE, steps, parses);
  }

  lemma FiveSteps(s: Client, steps: seq<Step>, parses: Parsing)
    requires |steps| == 5
    ensures Run(s, steps, parses) ==
      Next(Next(Next(Next(Next(s, steps[0], parses), steps[1], parses), steps[2], parses), steps[3], parses),
           steps[4], parses)
  {
    hide Next;
    var s1 := Next(s, steps[0], parses);
    var s2 := Next(s1, steps[1], parses);
    var s3 := Next(s2, steps[2], parses);
    var s4 := Next(s3, steps[3], parses);
    assert steps[1..][1..] == steps[2..] && steps[2..][1..] == steps[3..] && steps[3..][1..] == steps[4..];
    assert steps[4..][1..] == [];
    assert Run(s1, steps[1..], parses) == Run(s2, steps[2..], parses);
    assert Run(s3, steps[3..], parses) == Run(s4, steps[4..], parses);
    assert Run(s4, steps[4..], parses) == Next(s4, steps[4], parses);
  }

  /** The first three steps of a lone call: its reply callback is registered. */
  lemma Registers(request: Message, sameController: bool, parses: Parsing) returns (s: Client)
    requires Fits(request) && request.msgId != []
    ensures s == Next(Next(Next(IDLE, AddTimer(request, true, sameController), parses), Push(request.msgId), parses),
                      Flush, parses)
    ensures s.readDones == map[request.msgId := ForCall(request.msgId)] && s.writeDones == []
    ensures s.calls == map[request.msgId := NewCall(request, true, sameController).(pushed := true)]
  {
    hide Fits;
    var id := request.msgId;
    var s2 := Next(Next(IDLE, AddTimer(request, true, sameController), parses), Push(id), parses);
    assert s2.writeDones == [(request, ForCall(id))];
    var registered: map<bytes, Done> := map[id := ForCall(id)];
    assert s2.writeDones[1..] == [] && Connections.Register(registered, []) == registered;
    s := Next(s2, Flush, parses);
  }

  lemma OneReply(s: Client, m: Message, parses: Parsing)
    ensures Next(s, Replies([m]), parses) == Deliver(s, m, parses)
  {
    RepliesOneByOne(s, [m], parses);
    assert [m][1..] == [];
  }

  /** The lost closure is real: the reply's payload does not parse, its callback returns early with the timer
      already cancelled, and nothing runs the closure any more. */
  lemma ClosureCanBeLost()
    ensures var id: bytes := [0x31];
      var c := Run(IDLE, [AddTimer(Message(0, id, [], 0, [], 0), true, true), Push(id), Flush,
                          Replies([Message(0, id, [], 0, [7], 0)]), TimerDue(id)], (_, _) => false).calls;
      id in c && c[id].hasClosure && !c[id].timerPending && c[id].runs == []
  {
    var id: bytes := [0x31];
    var parses: Parsing := (_, _) => false;
    var req, rsp := Message(0, id, [], 0, [], 0), Message(0, id, [], 0, [7], 0);
    FiveSteps(IDLE, [AddTimer(req, true, true), Push(id), Flush, Replies([rsp]), TimerDue(id)], parses);
    var s := Registers(req, true, parses);
    OneReply(s, rsp, parses);
  }

  /** So is the second run: the timeout, then the reply, on a channel initialised with another controller. */
  lemma ClosureCanRunTwice()
    ensures var id: bytes := [0x31];
      var c := Run(IDLE, [AddTimer(Message(0, id, [], 0, [], 0), true, false), Push(id), Flush, TimerDue(id),
                          Replies([Message(0, id, [], 0, [7], 0)])], (_, _) => true).calls;
      id in c && c[id].runs == [Seen(1000_0007, None),
                                Seen(1000_0007, Some([7]))]
  {
    var id: bytes := [0x31];
    var parses: Parsing := (_, _) => true;
    var req, rsp := Message(0, id, [], 0, [], 0), Message(0, id, [], 0, [7], 0);
    FiveSteps(IDLE, [AddTimer(req, true, false), Push(id), Flush, TimerDue(id), Replies([rsp])], parses);
    var s := Registers(req, false, parses);
    OneReply(Next(s, TimerDue(id), parses), rsp, parses);
  }
}
