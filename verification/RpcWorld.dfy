/** One client connection and the server behind it: requests travel as frames over a byte stream that is
    delivered in arbitrary pieces, batches are served in arbitrary order, and replies travel back the
    same way. Every closure gets its own call's response, and no call is left without one. */
module RpcWorld {
  import opened Bytes
  import opened TinyPB
  import opened TinyPBStream
  import Connections
  import opened Dispatcher
  import opened Options
  import opened RpcClient

  /** The two streams hold what was encoded and has not been delivered yet, output buffers and socket
      alike; `serverIn` and `clientIn` are the windows of the input buffers. A side whose decoder faulted
      is down. The last four fields record the history: requests sent and decoded, replies submitted and
      decoded. */
  datatype World = World(
    client: Client,
    toServer: bytes,
    serverIn: bytes,
    serverDown: bool,
    batches: seq<seq<Message>>,
    toClient: bytes,
    clientIn: bytes,
    clientDown: bool,
    sent: seq<Message>,
    requests: seq<Message>,
    replied: seq<Message>,
    replies: seq<Message>)

  const START: World := World(IDLE, [], [], false, [], [], [], false, [], [], [], [])

  /** Besides the client's own steps: its write event, a piece of `n` bytes reaching one of the two decoders
      while the bytes `stale` stand in front of the window in its array, and a worker serving the batch at
      position `j`. */
  datatype Event =
    | Local(step: Step)
    | Send
    | ReachServer(n: nat, stale: bytes)
    | Serve(j: nat)
    | ReachClient(n: nat, stale: bytes)

  predicate AllFit(ms: seq<Message>) { forall m :: m in ms ==> Fits(m) }

  /** The window with the piece behind it is within the index range. */
  predicate CanReach(stale: bytes, pending: bytes, n: nat, coming: bytes) {
    n <= |coming| && |stale| + |pending| + n <= INT32_MAX
  }

  function Step(w: World, e: Event, services: Services, parses: Parsing): World {
    match e
    case Local(step) =>
      if w.clientDown || step.Flush? || step.Replies? then w else w.(client := Next(w.client, step, parses))
    case Send =>
      if w.clientDown then w
      else
        var ms := Connections.Messages(w.client.writeDones);
        w.(client := Next(w.client, Flush, parses), toServer := w.toServer + Encoding(ms), sent := w.sent + ms)
    case ReachServer(n, stale) =>
      if w.serverDown || !CanReach(stale, w.serverIn, n, w.toServer) then w
      else
        var a := stale + (w.serverIn + w.toServer[..n]);
        var r := DecodeArray(a, |stale|);
        if r.fault then w.(serverDown := true)
        else w.(toServer := w.toServer[n..], serverIn := a[r.stop..],
                batches := w.batches + [r.out], requests := w.requests + r.out)
    case Serve(j) =>
      if w.serverDown || j >= |w.batches| || !AllFit(RespondAll(services, w.batches[j])) then w
      else
        var rs := RespondAll(services, w.batches[j]);
        w.(batches := w.batches[..j] + w.batches[j + 1..],
           toClient := w.toClient + Encoding(rs), replied := w.replied + rs)
    case ReachClient(n, stale) =>
      if w.clientDown || !CanReach(stale, w.clientIn, n, w.toClient) then w
      else
        var a := stale + (w.clientIn + w.toClient[..n]);
        var r := DecodeArray(a, |stale|);
        if r.fault then w.(clientDown := true)
        else w.(toClient := w.toClient[n..], clientIn := a[r.stop..], replies := w.replies + r.out,
                client := Next(w.client, Replies(r.out), parses))
  }

  function Play(w: World, es: seq<Event>, services: Services, parses: Parsing): World
    decreases |es|
  {
    if es == [] then w else Play(Step(w, es[0], services, parses), es[1..], services, parses)
  }

  // ---------------------------------------------------------------------------------------------
  // One direction of the byte stream
  // ---------------------------------------------------------------------------------------------

  /** `sent` was encoded; the receiver has decoded `got` and holds `pending`, a part of the next frame; the
      bytes `coming` have not been delivered. */
  ghost predicate Pipe(sent: seq<Message>, coming: bytes, got: seq<Message>, pending: bytes) {
    && Sendable(sent) && got <= sent
    && pending + coming == Encoding(sent[|got|..])
    && |pending| < (if |got| < |sent| then FrameSize(sent[|got|]) else 1)
  }

  lemma PipeSend(sent: seq<Message>, coming: bytes, got: seq<Message>, pending: bytes, more: seq<Message>)
    requires Pipe(sent, coming, got, pending)
    requires forall m :: m in more ==> Fits(m) && m.msgId != []
    ensures Pipe(sent + more, coming + Encoding(more), got, pending)
  {
    hide Encoding, Fits;
    assert (sent + more)[|got|..] == sent[|got|..] + more;
    EncodingAppend(sent[|got|..], more);
    Associative(pending, coming, Encoding(more));
  }

  /** What the receiver's decode call makes of the next `n` bytes. It faults exactly if the length of the
      frame in progress is there and points beyond the index range. */
  lemma PipeDeliver(sent: seq<Message>, coming: bytes, got: seq<Message>, pending: bytes, n: nat, stale: bytes)
    requires Pipe(sent, coming, got, pending) && CanReach(stale, pending, n, coming)
    ensures var a := stale + (pending + coming[..n]);
      var r := DecodeArray(a, |stale|);
      var next := |got + r.out|;
      && got + r.out <= sent
      && (!r.fault ==> Pipe(sent, coming[n..], got + r.out, a[r.stop..]))
      && (r.fault <==> next < |sent| && 5 <= |a| - r.stop && r.stop + FrameSize(sent[next]) > INT32_MAX)
  {
    hide DecodeArray, Encoding, Complete, Fits;
    var rest, b := sent[|got|..], pending + coming[..n];
    var k := Complete(rest, |b|);
    assert b + coming[n..] == pending + coming;
    assert b == Encoding(rest)[..|b|];
    PrefixInArray(rest, |b|, stale);
    var at := |Encoding(rest[..k])|;
    assert rest == rest[..k] + rest[k..];
    EncodingAppend(rest[..k], rest[k..]);
    assert (stale + b)[|stale| + at..] == b[at..];
    assert b[at..] + coming[n..] == Encoding(rest)[at..];
    assert sent == got + rest && sent[|got + rest[..k]|..] == rest[k..];
  }

  /** The bytes that complete the next frame deliver exactly its message. */
  lemma PipeNext(sent: seq<Message>, coming: bytes, got: seq<Message>, pending: bytes) returns (n: nat)
    requires Pipe(sent, coming, got, pending) && coming != []
    ensures |got| < |sent| && CanReach([], pending, n, coming)
    ensures var r := DecodeArray([] + (pending + coming[..n]), 0);
      !r.fault && r.out == [sent[|got|]]
  {
    hide DecodeArray, Frame;
    var rest := sent[|got|..];
    assert pending + coming != [];
    var k := FrameSize(rest[0]);
    n := k - |pending|;
    assert |Encoding(rest)| == k + |Encoding(rest[1..])|;
    var b := pending + coming[..n];
    assert b == Encoding(rest)[..k];
    assert Complete(rest, k) == 1 && rest[..1] == [rest[0]];
    assert Encoding(rest[..1]) == Frame(rest[0]) + Encoding([]);
    PrefixInArray(rest, k, []);
  }

  lemma PipeDrained(sent: seq<Message>, got: seq<Message>, pending: bytes)
    requires Pipe(sent, [], got, pending)
    ensures got == sent
  {
    hide Encoding;
    assert pending + [] == pending;
    EncodingLength(sent[|got|..]);
  }

  lemma EncodingLength(ms: seq<Message>)
    requires Sendable(ms)
    ensures ms != [] ==> FrameSize(ms[0]) <= |Encoding(ms)|
  {
    hide Frame;
  }

  // ---------------------------------------------------------------------------------------------
  // What every event keeps
  // ---------------------------------------------------------------------------------------------

  /** A request on its way is the one its call was made with. */
  ghost predicate RequestsOwned(w: World) {
    forall m :: m in w.sent && m.msgId in w.client.calls ==> m == w.client.calls[m.msgId].request
  }

  ghost predicate KnownIds(w: World) {
    forall m :: m in w.sent ==> m.msgId in w.client.calls || m.msgId in w.client.pings
  }

  ghost predicate BatchesDecoded(w: World) {
    forall j, m :: 0 <= j < |w.batches| && m in w.batches[j] ==> m in w.requests
  }

  ghost predicate IsResponse(services: Services, w: World, r: Message) {
    exists m :: m in w.sent && r == Respond(services, m)
  }

  ghost predicate AllResponses(services: Services, w: World) {
    forall r :: r in w.replied ==> IsResponse(services, w, r)
  }

  /** The reply callback of a call has been given nothing but the response to that call's request. */
  ghost predicate RepliesOwned(services: Services, w: World) {
    forall id :: id in w.client.calls && w.client.calls[id].firstReply.Some? ==>
      w.client.calls[id].firstReply.value == Respond(services, w.client.calls[id].request)
  }

  /** A reply can reach the call: it has had one, or its callback is registered. */
  ghost predicate Reachable(s: Client, id: bytes) {
    id in s.calls && s.calls[id].pushed && (s.calls[id].firstReply.Some? || id in s.readDones)
  }

  /** Where the request of a pushed call is: queued, or sent with its callback registered. */
  ghost predicate PushedIsOnItsWay(w: World) {
    forall id :: id in w.client.calls ==>
      && (w.client.calls[id].pushed ==>
           w.client.calls[id].request in w.sent || (w.client.calls[id].request, ForCall(id)) in w.client.writeDones)
      && (w.client.calls[id].request in w.sent ==> Reachable(w.client, id))
  }

  /** A decoded request waits in a batch or has been answered. */
  ghost predicate InABatch(w: World, m: Message) {
    exists j :: 0 <= j < |w.batches| && m in w.batches[j]
  }

  ghost predicate RequestsServed(services: Services, w: World) {
    forall m :: m in w.requests ==> InABatch(w, m) || Respond(services, m) in w.replied
  }

  /** A decoded reply has been handed to its call. */
  ghost predicate RepliesHanded(w: World) {
    forall r :: r in w.replies && r.msgId in w.client.calls ==> w.client.calls[r.msgId].firstReply.Some?
  }

  ghost predicate Good(w: World, services: Services, parses: Parsing) {
    && Ok(w.client, parses)
    && Pipe(w.sent, w.toServer, w.requests, w.serverIn)
    && Pipe(w.replied, w.toClient, w.replies, w.clientIn)
    && RequestsOwned(w) && KnownIds(w) && BatchesDecoded(w)
    && AllResponses(services, w) && RepliesOwned(services, w)
    && PushedIsOnItsWay(w) && RequestsServed(services, w) && RepliesHanded(w)
  }

  /** What the client's steps leave alone: calls stay, with their requests and first replies; a call that is
      pushed now is in the queue; a call to which replies can come stays so. */
  ghost predicate Keeps(s: Client, t: Client) {
    && (forall id :: id in s.calls ==>
         && id in t.calls
         && t.calls[id].request == s.calls[id].request && t.calls[id].firstReply == s.calls[id].firstReply
         && (s.calls[id].pushed ==> t.calls[id].pushed)
         && (t.calls[id].pushed && !s.calls[id].pushed ==> (s.calls[id].request, ForCall(id)) in t.writeDones))
    && (forall id :: id in t.calls && id !in s.calls ==>
         t.calls[id].firstReply.None? && id !in s.pings && !t.calls[id].pushed && t.calls[id].request.msgId == id)
    && s.pings <= t.pings
    && (forall id :: id in s.calls && id in s.readDones ==> id in t.readDones)
  }

  lemma TimerKeeps(s: Client, id: bytes, parses: Parsing)
    ensures Keeps(s, Next(s, TimerDue(id), parses)) && Next(s, TimerDue(id), parses).writeDones == s.writeDones
  {
  }

  lemma PopKeeps(s: Client, id: bytes, parses: Parsing)
    requires forall c :: c in s.calls ==> c !in s.pings
    ensures Keeps(s, Next(s, PopPing(id), parses)) && Next(s, PopPing(id), parses).writeDones == s.writeDones
  {
  }

  lemma LocalKeeps(s: Client, step: RpcClient.Step, parses: Parsing)
    requires !step.Replies? && !step.Flush? && Ok(s, parses)
    ensures Keeps(s, Next(s, step, parses))
    ensures s.writeDones <= Next(s, step, parses).writeDones
  {
    hide Fits, Ok, OnTimeout;
    assert forall id :: id in s.calls ==> id !in s.pings by { CallsAreNotPings(s, parses); }
    match step
    case TimerDue(id) => TimerKeeps(s, id, parses);
    case PopPing(id) => PopKeeps(s, id, parses);
    case _ =>
  }

  lemma CallsAreNotPings(s: Client, parses: Parsing)
    requires Ok(s, parses)
    ensures forall id :: id in s.calls ==> id !in s.pings
  {
    hide Fits, CallOk;
  }

  lemma GotWasSent(sent: seq<Message>, coming: bytes, got: seq<Message>, pending: bytes)
    requires Pipe(sent, coming, got, pending)
    ensures forall m :: m in got ==> m in sent
  {
  }

  lemma ReplyIsKnown(w: World, r: Message, services: Services, parses: Parsing)
    requires Good(w, services, parses) && r in w.replies
    ensures r.msgId in w.client.calls || r.msgId in w.client.pings
  {
    hide Pipe, Ok, Respond;
    GotWasSent(w.replied, w.toClient, w.replies, w.clientIn);
    assert IsResponse(services, w, r);
    var m :| m in w.sent && r == Respond(services, m);
    ResponseIsForRequest(services, m);
  }

  lemma LocalKeepsCalls(w: World, t: World, services: Services, parses: Parsing)
    requires Good(w, services, parses) && Keeps(w.client, t.client) && w.client.writeDones <= t.client.writeDones
    requires t == w.(client := t.client)
    ensures PushedIsOnItsWay(t) && RepliesHanded(t)
  {
    hide Pipe, Ok, Respond;
    forall r | r in w.replies
      ensures r.msgId in w.client.calls || r.msgId in w.client.pings
    {
      ReplyIsKnown(w, r, services, parses);
    }
  }

  lemma LocalKeepsGood(w: World, step: RpcClient.Step, services: Services, parses: Parsing)
    requires Good(w, services, parses)
    ensures Good(Step(w, Local(step), services, parses), services, parses)
  {
    hide Pipe, Ok, Next, Respond, PushedIsOnItsWay, RepliesHanded;
    if !w.clientDown && !step.Flush? && !step.Replies? {
      var t := Step(w, Local(step), services, parses);
      NextKeepsOk(w.client, step, parses);
      LocalKeeps(w.client, step, parses);
      LocalKeepsCalls(w, t, services, parses);
      assert forall r :: IsResponse(services, w, r) ==> IsResponse(services, t, r);
      assert forall m :: InABatch(w, m) ==> InABatch(t, m);
    }
  }

  // Send

  lemma {:induction false} RegisterCovers(readDones: map<bytes, Done>, sent: seq<(Message, Done)>)
    ensures var r := Connections.Register(readDones, sent);
      && readDones.Keys <= r.Keys
      && forall i :: 0 <= i < |sent| ==> sent[i].0.msgId in r
    decreases |sent|
  {
    if sent != [] {
      var (m, done) := sent[0];
      var next := if m.msgId in readDones then readDones else readDones[m.msgId := done];
      RegisterCovers(next, sent[1..]);
      assert m.msgId in next;
      assert forall i :: 1 <= i < |sent| ==> sent[i] == sent[1..][i - 1];
    }
  }

  /** What the write event takes from the queue: requests of pushed calls and heartbeats. */
  lemma QueueIsKnown(s: Client, m: Message, parses: Parsing)
    requires Ok(s, parses) && m in Connections.Messages(s.writeDones)
    ensures Fits(m) && m.msgId != [] && (m.msgId in s.calls || m.msgId in s.pings)
    ensures m.msgId in s.calls ==> m == s.calls[m.msgId].request && s.calls[m.msgId].pushed
    ensures m.msgId in Next(s, Flush, parses).readDones
  {
    hide CallOk, Fits;
    var i :| 0 <= i < |s.writeDones| && m == s.writeDones[i].0;
    assert Queued(s, s.writeDones[i]);
    RegisterCovers(s.readDones, s.writeDones);
  }

  lemma FlushKeeps(s: Client, parses: Parsing)
    ensures var t := Next(s, Flush, parses);
      && t.calls == s.calls && t.pings == s.pings && t.writeDones == [] && s.readDones.Keys <= t.readDones.Keys
  {
    RegisterCovers(s.readDones, s.writeDones);
  }

  lemma SendKeepsGood(w: World, services: Services, parses: Parsing)
    requires Good(w, services, parses)
    ensures Good(Step(w, Send, services, parses), services, parses)
  {
    hide Pipe, Respond, Next, Ok, Encoding;
    if !w.clientDown {
      var t := Step(w, Send, services, parses);
      var ms := Connections.Messages(w.client.writeDones);
      NextKeepsOk(w.client, Flush, parses);
      FlushKeeps(w.client, parses);
      forall m | m in ms
        ensures Fits(m) && m.msgId != [] && (m.msgId in w.client.calls || m.msgId in w.client.pings)
        ensures m.msgId in w.client.calls ==> m == w.client.calls[m.msgId].request && w.client.calls[m.msgId].pushed
        ensures m.msgId in t.client.readDones
      {
        QueueIsKnown(w.client, m, parses);
      }
      PipeSend(w.sent, w.toServer, w.requests, w.serverIn, ms);
      assert forall r :: IsResponse(services, w, r) ==> IsResponse(services, t, r);
      assert forall m :: InABatch(w, m) ==> InABatch(t, m);
      SendKeepsCalls(w, t, ms, parses);
    }
  }

  lemma SendKeepsCalls(w: World, t: World, ms: seq<Message>, parses: Parsing)
    requires PushedIsOnItsWay(w) && RequestsOwned(w) && RepliesHanded(w) && Ok(w.client, parses)
    requires t.sent == w.sent + ms && ms == Connections.Messages(w.client.writeDones)
    requires t.client.calls == w.client.calls && w.client.readDones.Keys <= t.client.readDones.Keys
    requires forall m :: m in ms ==> m.msgId in t.client.readDones
    requires forall m :: m in ms && m.msgId in w.client.calls ==> w.client.calls[m.msgId].pushed
    ensures PushedIsOnItsWay(t)
  {
    forall id | id in w.client.calls
      ensures w.client.calls[id].request.msgId == id
      ensures (w.client.calls[id].request, ForCall(id)) in w.client.writeDones ==> w.client.calls[id].request in ms
    {
      var entry := (w.client.calls[id].request, ForCall(id));
      if entry in w.client.writeDones {
        var i :| 0 <= i < |w.client.writeDones| && w.client.writeDones[i] == entry;
        assert ms[i] == entry.0;
      }
    }
  }

  // The server

  lemma ReachServerKeepsGood(w: World, n: nat, stale: bytes, services: Services, parses: Parsing)
    requires Good(w, services, parses)
    ensures Good(Step(w, ReachServer(n, stale), services, parses), services, parses)
  {
    hide Pipe, Ok, Respond, DecodeArray;
    if !w.serverDown && CanReach(stale, w.serverIn, n, w.toServer) {
      PipeDeliver(w.sent, w.toServer, w.requests, w.serverIn, n, stale);
      var t := Step(w, ReachServer(n, stale), services, parses);
      assert forall r :: IsResponse(services, w, r) ==> IsResponse(services, t, r);
      forall m | m in t.requests
        ensures InABatch(t, m) || Respond(services, m) in t.replied
      {
        if m in w.requests {
          if InABatch(w, m) {
            var j :| 0 <= j < |w.batches| && m in w.batches[j];
            assert t.batches[j] == w.batches[j];
          }
        } else {
          assert m in t.batches[|w.batches|];
        }
      }
    }
  }

  lemma ServeKeepsGood(w: World, j: nat, services: Services, parses: Parsing)
    requires Good(w, services, parses)
    ensures Good(Step(w, Serve(j), services, parses), services, parses)
  {
    hide Ok, Respond, Pipe, Encoding, Fits;
    if !w.serverDown && j < |w.batches| && AllFit(RespondAll(services, w.batches[j])) {
      var rs := RespondAll(services, w.batches[j]);
      var t := Step(w, Serve(j), services, parses);
      PipeIds(w.sent, w.toServer, w.requests, w.serverIn);
      forall r | r in rs
        ensures r.msgId != [] && IsResponse(services, w, r)
      {
        var i :| 0 <= i < |rs| && r == rs[i];
        var m := w.batches[j][i];
        assert m in w.requests && m in w.sent;
        ResponseIsForRequest(services, m);
      }
      PipeSend(w.replied, w.toClient, w.replies, w.clientIn, rs);
      assert forall r :: IsResponse(services, w, r) ==> IsResponse(services, t, r);
      ServedOrWaiting(w, t, j, rs, services);
    }
  }

  lemma PipeIds(sent: seq<Message>, coming: bytes, got: seq<Message>, pending: bytes)
    requires Pipe(sent, coming, got, pending)
    ensures forall m :: m in got ==> m in sent && m.msgId != []
  {
  }

  lemma ServedOrWaiting(w: World, t: World, j: nat, rs: seq<Message>, services: Services)
    requires RequestsServed(services, w) && j < |w.batches|
    requires rs == RespondAll(services, w.batches[j]) && t.replied == w.replied + rs && t.requests == w.requests
    requires t.batches == w.batches[..j] + w.batches[j + 1..]
    ensures RequestsServed(services, t)
  {
    hide Respond;
    forall m | m in t.requests
      ensures InABatch(t, m) || Respond(services, m) in t.replied
    {
      if InABatch(w, m) {
        var k :| 0 <= k < |w.batches| && m in w.batches[k];
        if k == j {
          var i :| 0 <= i < |w.batches[j]| && w.batches[j][i] == m;
          assert rs[i] == Respond(services, m);
        } else {
          assert t.batches[if k < j then k else k - 1] == w.batches[k];
        }
      }
    }
  }

  // The client's replies

  /** A reply that reaches the client answers the call whose id it carries. */
  lemma ReplyAnswersItsCall(w: World, r: Message, services: Services, parses: Parsing)
    requires Good(w, services, parses) && r in w.replied && r.msgId in w.client.calls
    ensures r == Respond(services, w.client.calls[r.msgId].request) && Reachable(w.client, r.msgId)
  {
    hide Pipe, Ok, Respond;
    assert IsResponse(services, w, r);
    var m :| m in w.sent && r == Respond(services, m);
    ResponseIsForRequest(services, m);
  }

  predicate SameCall(c: Call, d: Call) {
    && d.request == c.request && d.hasClosure == c.hasClosure && d.sameController == c.sameController
    && d.pushed == c.pushed && d.isCanceled == c.isCanceled
  }

  /** Replies change nothing of a call but hand it, as its first reply, the response to its request; and a
      call that replies can reach has had one or stays reachable. */
  ghost predicate OnlyOwnReplies(s: Client, t: Client, services: Services) {
    && t.pings == s.pings && t.calls.Keys == s.calls.Keys && t.writeDones == s.writeDones
    && (forall id :: id in s.calls ==>
         && SameCall(s.calls[id], t.calls[id])
         && (t.calls[id].firstReply == s.calls[id].firstReply
             || t.calls[id].firstReply == Some(Respond(services, s.calls[id].request)))
         && (s.calls[id].firstReply.Some? ==> t.calls[id].firstReply.Some?)
         && (Reachable(s, id) ==> Reachable(t, id)))
  }

  lemma EntryHasOwner(s: Client, id: bytes, parses: Parsing)
    requires Ok(s, parses) && id in s.readDones
    ensures Owner(s, id, s.readDones[id])
  {
    hide CallOk, Fits, Queued;
  }

  lemma ReplyIsHanded(c: Call, m: Message, parses: Parsing)
    ensures var d := OnReply(c, m, parses);
      && SameCall(c, d)
      && d.firstReply == if c.firstReply.None? then Some(m) else c.firstReply
  {
  }

  lemma DeliverOnlyOwn(s: Client, m: Message, services: Services, parses: Parsing)
    requires Ok(s, parses) && (m.msgId in s.calls ==> m == Respond(services, s.calls[m.msgId].request))
    requires m.msgId in s.calls ==> Reachable(s, m.msgId)
    ensures var t := Deliver(s, m, parses);
      && OnlyOwnReplies(s, t, services)
      && (m.msgId in s.calls ==> t.calls[m.msgId].firstReply.Some?)
  {
    hide Respond, Ok, OnReply;
    if m.msgId in s.readDones {
      EntryHasOwner(s, m.msgId, parses);
    }
    if m.msgId in s.calls {
      ReplyIsHanded(s.calls[m.msgId], m, parses);
    }
    CallsAreNotPings(s, parses);
  }

  lemma {:induction false} RepliesOnlyOwn(s: Client, ms: seq<Message>, services: Services, parses: Parsing)
    requires Ok(s, parses)
    requires forall m :: m in ms && m.msgId in s.calls ==>
      m == Respond(services, s.calls[m.msgId].request) && Reachable(s, m.msgId)
    ensures var t := Next(s, Replies(ms), parses);
      && OnlyOwnReplies(s, t, services)
      && (forall m :: m in ms && m.msgId in s.calls ==> t.calls[m.msgId].firstReply.Some?)
    decreases |ms|
  {
    hide Respond, Ok, Deliver, Reachable;
    if ms != [] {
      var t := Deliver(s, ms[0], parses);
      DeliverKeepsOk(s, ms[0], parses);
      DeliverOnlyOwn(s, ms[0], services, parses);
      RepliesOnlyOwn(t, ms[1..], services, parses);
      RepliesOneByOne(s, ms, parses);
      OnlyOwnTransitive(s, t, Next(s, Replies(ms), parses), services);
    }
  }

  lemma OnlyOwnTransitive(s: Client, t: Client, u: Client, services: Services)
    requires OnlyOwnReplies(s, t, services) && OnlyOwnReplies(t, u, services)
    ensures OnlyOwnReplies(s, u, services)
    ensures forall id :: id in s.calls && t.calls[id].firstReply.Some? ==> u.calls[id].firstReply.Some?
  {
    hide Respond;
  }

  /** What a batch of replies that all answer reachable calls keeps. */
  lemma RepliesKeepClaims(w: World, t: World, out: seq<Message>, services: Services, parses: Parsing)
    requires Good(w, services, parses) && OnlyOwnReplies(w.client, t.client, services)
    requires t.sent == w.sent && t.replied == w.replied && t.replies == w.replies + out
    requires forall m :: m in out && m.msgId in w.client.calls ==> t.client.calls[m.msgId].firstReply.Some?
    ensures RequestsOwned(t) && KnownIds(t) && RepliesOwned(services, t)
    ensures PushedIsOnItsWay(t) && RepliesHanded(t)
  {
    hide Pipe, Ok, Respond, Reachable;
  }

  lemma DownKeepsGood(w: World, services: Services, parses: Parsing)
    requires Good(w, services, parses)
    ensures Good(w.(clientDown := true), services, parses)
  {
    hide Pipe, Ok, Respond, Reachable;
    var t := w.(clientDown := true);
    assert forall r :: IsResponse(services, w, r) ==> IsResponse(services, t, r);
    assert forall m :: InABatch(w, m) ==> InABatch(t, m);
  }

  lemma ReachClientKeepsGood(w: World, n: nat, stale: bytes, services: Services, parses: Parsing)
    requires Good(w, services, parses)
    ensures Good(Step(w, ReachClient(n, stale), services, parses), services, parses)
  {
    hide Pipe, Ok, Respond, DecodeArray, Next, Reachable, RequestsOwned, KnownIds, RepliesOwned, PushedIsOnItsWay;
    hide OnlyOwnReplies;
    if !w.clientDown && CanReach(stale, w.clientIn, n, w.toClient) {
      var t := Step(w, ReachClient(n, stale), services, parses);
      PipeDeliver(w.replied, w.toClient, w.replies, w.clientIn, n, stale);
      var a := stale + (w.clientIn + w.toClient[..n]);
      var out := DecodeArray(a, |stale|).out;
      forall m | m in out && m.msgId in w.client.calls
        ensures m == Respond(services, w.client.calls[m.msgId].request) && Reachable(w.client, m.msgId)
      {
        assert m in w.replies + out;
        ReplyAnswersItsCall(w, m, services, parses);
      }
      RepliesKeepOk(w.client, out, parses);
      RepliesOnlyOwn(w.client, out, services, parses);
      assert forall r :: IsResponse(services, w, r) ==> IsResponse(services, t, r);
      assert forall m :: InABatch(w, m) ==> InABatch(t, m);
      if DecodeArray(a, |stale|).fault {
        DownKeepsGood(w, services, parses);
      } else {
        RepliesKeepClaims(w, t, out, services, parses);
      }
    }
  }

  lemma StepKeepsGood(w: World, e: Event, services: Services, parses: Parsing)
    requires Good(w, services, parses)
    ensures Good(Step(w, e, services, parses), services, parses)
  {
    match e
    case Local(step) => LocalKeepsGood(w, step, services, parses);
    case Send => SendKeepsGood(w, services, parses);
    case ReachServer(n, stale) => ReachServerKeepsGood(w, n, stale, services, parses);
    case Serve(j) => ServeKeepsGood(w, j, services, parses);
    case ReachClient(n, stale) => ReachClientKeepsGood(w, n, stale, services, parses);
  }

  lemma {:induction false} PlayKeepsGood(w: World, es: seq<Event>, services: Services, parses: Parsing)
    requires Good(w, services, parses)
    ensures Good(Play(w, es, services, parses), services, parses)
    decreases |es|
  {
    hide Good, Step;
    if es != [] {
      StepKeepsGood(w, es[0], services, parses);
      PlayKeepsGood(Step(w, es[0], services, parses), es[1..], services, parses);
    }
  }

  lemma StartIsGood(services: Services, parses: Parsing)
    ensures Good(START, services, parses)
  {
  }

  // ---------------------------------------------------------------------------------------------
  // Safety
  // ---------------------------------------------------------------------------------------------

  lemma ReachedIsGood(es: seq<Event>, services: Services, parses: Parsing)
    ensures Good(Play(START, es, services, parses), services, parses)
  {
    hide Good;
    StartIsGood(services, parses);
    PlayKeepsGood(START, es, services, parses);
  }

  /** End-to-end matching, over every run: a reply handed to a call's callback is exactly the response that
      dispatch makes of that call's own request; and a closure sees nothing but the timeout or that response,
      at most once if the channel was initialised with the controller of the call. */
  lemma EndToEnd(es: seq<Event>, services: Services, parses: Parsing, id: bytes)
    requires id in Play(START, es, services, parses).client.calls
    ensures var c := Play(START, es, services, parses).client.calls[id];
      var r := Respond(services, c.request);
      && c.request.msgId == id
      && (c.firstReply.Some? ==> c.firstReply.value == r)
      && |c.runs| <= 2 && (c.sameController ==> |c.runs| <= 1)
      && (c.runs != [] ==>
           c.runs[0] == Seen(ERROR_RPC_CALL_TIMEOUT, None) || c.runs[0] == Seen(r.errorCode, Some(r.pbData)))
      && (|c.runs| == 2 ==> c.runs[1].response == Some(r.pbData))
  {
    hide Respond, Pipe;
    ReachedIsGood(es, services, parses);
  }

  /** No request is lost, duplicated or reordered on its way to the server, and no reply on its way back:
      what was decoded so far is a prefix of what was encoded. */
  lemma StreamsAreFaithful(es: seq<Event>, services: Services, parses: Parsing)
    ensures var w := Play(START, es, services, parses);
      && w.requests <= w.sent && w.replies <= w.replied
      && (w.toServer == [] ==> w.requests == w.sent)
      && (w.toClient == [] ==> w.replies == w.replied)
  {
    hide Respond;
    ReachedIsGood(es, services, parses);
    var w := Play(START, es, services, parses);
    if w.toServer == [] {
      PipeDrained(w.sent, w.requests, w.serverIn);
    }
    if w.toClient == [] {
      PipeDrained(w.replied, w.replies, w.clientIn);
    }
  }

  // ---------------------------------------------------------------------------------------------
  // Faults
  // ---------------------------------------------------------------------------------------------

  function Ahead(sent: seq<Message>, got: seq<Message>): seq<Message> {
    if got <= sent then sent[|got|..] else []
  }

  /** When a decode call on one of the two sides faults: with `pending` and `n` more bytes in the window, the
      frame in progress is the one after those complete by then, its length has arrived, and its end lies
      beyond the index range. */
  ghost predicate Overruns(sent: seq<Message>, got: seq<Message>, pending: bytes, n: nat, stale: bytes) {
    var rest := Ahead(sent, got);
    var k := Complete(rest, |pending| + n);
    var at := |Encoding(rest[..k])|;
    k < |rest| && 5 <= |pending| + n - at && |stale| + at + FrameSize(rest[k]) > INT32_MAX
  }

  lemma PipeFaults(sent: seq<Message>, coming: bytes, got: seq<Message>, pending: bytes, n: nat, stale: bytes)
    requires Pipe(sent, coming, got, pending) && CanReach(stale, pending, n, coming)
    ensures DecodeArray(stale + (pending + coming[..n]), |stale|).fault <==> Overruns(sent, got, pending, n, stale)
  {
    hide DecodeArray, Encoding, Complete, Fits;
    var rest, b := sent[|got|..], pending + coming[..n];
    assert b + coming[n..] == pending + coming;
    assert b == Encoding(rest)[..|b|];
    PrefixInArray(rest, |b|, stale);
  }

  /** From every reachable state, a side goes down in a step exactly if that step is its read event and the
      frame in progress overruns the index range. */
  lemma DownIfOverrun(es: seq<Event>, e: Event, services: Services, parses: Parsing)
    ensures var w := Play(START, es, services, parses);
      var v := Step(w, e, services, parses);
      && (v.serverDown <==> w.serverDown || (e.ReachServer? && CanReach(e.stale, w.serverIn, e.n, w.toServer)
                                             && Overruns(w.sent, w.requests, w.serverIn, e.n, e.stale)))
      && (v.clientDown <==> w.clientDown || (e.ReachClient? && CanReach(e.stale, w.clientIn, e.n, w.toClient)
                                             && Overruns(w.replied, w.replies, w.clientIn, e.n, e.stale)))
  {
    hide DecodeArray, Overruns, Pipe, Next, Ok, Respond, Fits;
    ReachedIsGood(es, services, parses);
    var w := Play(START, es, services, parses);
    match e
    case ReachServer(n, stale) =>
      if CanReach(stale, w.serverIn, n, w.toServer) {
        PipeFaults(w.sent, w.toServer, w.requests, w.serverIn, n, stale);
      }
    case ReachClient(n, stale) =>
      if CanReach(stale, w.clientIn, n, w.toClient) {
        PipeFaults(w.replied, w.toClient, w.replies, w.clientIn, n, stale);
      }
    case _ =>
  }

  predicate Roomy(e: Event, max: nat) {
    match e
    case ReachServer(n, stale) => |stale| + n + 2 * max <= INT32_MAX
    case ReachClient(n, stale) => |stale| + n + 2 * max <= INT32_MAX
    case _ => true
  }

  lemma FramesOfPrefix(ms: seq<Message>, all: seq<Message>, max: nat)
    requires ms <= all && FramesUpTo(all, max)
    ensures FramesUpTo(ms, max)
  {
    assert forall m :: m in ms ==> m in all;
  }

  lemma NoOverrun(sent: seq<Message>, coming: bytes, got: seq<Message>, pending: bytes, n: nat, stale: bytes, max: nat)
    requires Pipe(sent, coming, got, pending) && CanReach(stale, pending, n, coming)
    requires FramesUpTo(sent, max) && |stale| + n + 2 * max <= INT32_MAX
    ensures !DecodeArray(stale + (pending + coming[..n]), |stale|).fault
  {
    hide DecodeArray, Fits;
    PipeDeliver(sent, coming, got, pending, n, stale);
  }

  lemma {:induction false} HistoryGrows(w: World, es: seq<Event>, services: Services, parses: Parsing)
    ensures var v := Play(w, es, services, parses);
      w.sent <= v.sent && w.replied <= v.replied
    decreases |es|
  {
    hide Next, Respond, DecodeArray, Fits;
    if es != [] {
      HistoryGrows(Step(w, es[0], services, parses), es[1..], services, parses);
    }
  }

  lemma {:induction false} StaysUp(w: World, es: seq<Event>, services: Services, parses: Parsing, max: nat)
    requires Good(w, services, parses) && !w.serverDown && !w.clientDown
    requires forall e :: e in es ==> Roomy(e, max)
    requires var v := Play(w, es, services, parses); FramesUpTo(v.sent, max) && FramesUpTo(v.replied, max)
    ensures var v := Play(w, es, services, parses); !v.serverDown && !v.clientDown
    decreases |es|
  {
    hide Next, Respond, DecodeArray, Pipe, Ok, Encoding, Fits;
    if es != [] {
      HistoryGrows(w, es, services, parses);
      var v := Play(w, es, services, parses);
      FramesOfPrefix(w.sent, v.sent, max);
      FramesOfPrefix(w.replied, v.replied, max);
      assert Roomy(es[0], max);
      var e, t := es[0], Step(w, es[0], services, parses);
      if e.ReachServer? && CanReach(e.stale, w.serverIn, e.n, w.toServer) {
        NoOverrun(w.sent, w.toServer, w.requests, w.serverIn, e.n, e.stale, max);
      }
      if e.ReachClient? && CanReach(e.stale, w.clientIn, e.n, w.toClient) {
        NoOverrun(w.replied, w.toClient, w.replies, w.clientIn, e.n, e.stale, max);
      }
      StepKeepsGood(w, e, services, parses);
      StaysUp(t, es[1..], services, parses, max);
    }
  }

  /** Neither side ever goes down in a run whose frames have at most `max` bytes, as long as every read event
      finds room for two such frames behind the bytes in front of the window and those it brings. */
  lemma NoFaultInRange(es: seq<Event>, services: Services, parses: Parsing, max: nat)
    requires forall e :: e in es ==> Roomy(e, max)
    requires var w := Play(START, es, services, parses); FramesUpTo(w.sent, max) && FramesUpTo(w.replied, max)
    ensures var w := Play(START, es, services, parses); !w.serverDown && !w.clientDown
  {
    hide Good;
    StartIsGood(services, parses);
    StaysUp(START, es, services, parses, max);
  }

  // ---------------------------------------------------------------------------------------------
  // Completion
  // ---------------------------------------------------------------------------------------------

  /** Nothing is queued, on its way, or waiting to be served. */
  ghost predicate Quiet(w: World) {
    w.client.writeDones == [] && w.toServer == [] && w.batches == [] && w.toClient == []
  }

  /** The call has been handed the response to its request. A closure that was not cancelled by the timeout has
      run with it, exactly once, provided its payload parses. */
  ghost predicate Completed(c: Call, services: Services, parses: Parsing) {
    var r := Respond(services, c.request);
    && c.firstReply == Some(r)
    && (c.hasClosure && !c.isCanceled && Parses(c, r, parses) ==> c.runs == [Seen(r.errorCode, Some(r.pbData))])
  }

  lemma QuietIsComplete(w: World, services: Services, parses: Parsing, id: bytes)
    requires Good(w, services, parses) && Quiet(w) && id in w.client.calls && w.client.calls[id].pushed
    ensures Completed(w.client.calls[id], services, parses)
  {
    hide Respond, Pipe;
    PipeDrained(w.sent, w.requests, w.serverIn);
    PipeDrained(w.replied, w.replies, w.clientIn);
    var c := w.client.calls[id];
    var r := Respond(services, c.request);
    assert c.request in w.sent && !InABatch(w, c.request);
    ResponseIsForRequest(services, c.request);
    assert r in w.replies;
    assert CallOk(c, parses);
  }

  /** Quiescence: in every reachable state in which nothing is on its way, every call that was pushed is
      complete, whatever was delivered, served or timed out in what order. */
  lemma Quiescence(es: seq<Event>, services: Services, parses: Parsing, id: bytes)
    requires var w := Play(START, es, services, parses);
      Quiet(w) && id in w.client.calls && w.client.calls[id].pushed
    ensures Completed(Play(START, es, services, parses).client.calls[id], services, parses)
  {
    ReachedIsGood(es, services, parses);
    QuietIsComplete(Play(START, es, services, parses), services, parses, id);
  }

  lemma {:induction false} PlayAppend(w: World, es: seq<Event>, fs: seq<Event>, services: Services, parses: Parsing)
    ensures Play(w, es + fs, services, parses) == Play(Play(w, es, services, parses), fs, services, parses)
    decreases |es|
  {
    hide Step;
    if es == [] {
      assert es + fs == fs;
    } else {
      assert (es + fs)[1..] == es[1..] + fs;
      PlayAppend(Step(w, es[0], services, parses), es[1..], fs, services, parses);
    }
  }

  lemma PlayOne(w: World, e: Event, fs: seq<Event>, services: Services, parses: Parsing)
    ensures Play(w, [e] + fs, services, parses) == Play(Step(w, e, services, parses), fs, services, parses)
  {
    hide Step;
    assert ([e] + fs)[0] == e && ([e] + fs)[1..] == fs;
  }

  /** The server can read, frame by frame, everything that is on its way to it. */
  lemma {:induction false} ServerDrains(w: World, services: Services, parses: Parsing) returns (es: seq<Event>)
    requires Good(w, services, parses) && !w.serverDown
    ensures var v := Play(w, es, services, parses);
      && Good(v, services, parses) && v.toServer == [] && !v.serverDown
      && v.client == w.client && v.sent == w.sent && v.clientDown == w.clientDown
    decreases |w.sent| - |w.requests|
  {
    hide Good, DecodeArray;
    es := [];
    if w.toServer != [] {
      var n := NextToServer(w, services, parses);
      var e := ReachServer(n, []);
      var t := Step(w, e, services, parses);
      StepKeepsGood(w, e, services, parses);
      var fs := ServerDrains(t, services, parses);
      PlayOne(w, e, fs, services, parses);
      es := [e] + fs;
    }
  }

  lemma NextToServer(w: World, services: Services, parses: Parsing) returns (n: nat)
    requires Good(w, services, parses) && w.toServer != []
    ensures CanReach([], w.serverIn, n, w.toServer) && |w.requests| < |w.sent|
    ensures var r := DecodeArray([] + (w.serverIn + w.toServer[..n]), 0);
      !r.fault && |r.out| == 1
  {
    hide DecodeArray, Ok, Respond, Pipe;
    n := PipeNext(w.sent, w.toServer, w.requests, w.serverIn);
  }

  lemma NextToClient(w: World, services: Services, parses: Parsing) returns (n: nat)
    requires Good(w, services, parses) && w.toClient != []
    ensures CanReach([], w.clientIn, n, w.toClient) && |w.replies| < |w.replied|
    ensures var r := DecodeArray([] + (w.clientIn + w.toClient[..n]), 0);
      !r.fault && |r.out| == 1
  {
    hide DecodeArray, Ok, Respond, Pipe;
    n := PipeNext(w.replied, w.toClient, w.replies, w.clientIn);
  }

  /** The workers can serve every batch, if the responses fit. */
  lemma {:induction false} BatchesDrain(w: World, services: Services, parses: Parsing) returns (es: seq<Event>)
    requires Good(w, services, parses) && !w.serverDown && AllFit(RespondAll(services, w.sent))
    ensures var v := Play(w, es, services, parses);
      && Good(v, services, parses) && v.batches == [] && v.toServer == w.toServer
      && v.client == w.client && v.clientDown == w.clientDown
    decreases |w.batches|
  {
    hide Good, RespondAll, Fits;
    es := [];
    if w.batches != [] {
      FirstBatchFits(w, services, parses);
      var t := Step(w, Serve(0), services, parses);
      StepKeepsGood(w, Serve(0), services, parses);
      var fs := BatchesDrain(t, services, parses);
      PlayOne(w, Serve(0), fs, services, parses);
      es := [Serve(0)] + fs;
    }
  }

  lemma FirstBatchFits(w: World, services: Services, parses: Parsing)
    requires Good(w, services, parses) && w.batches != [] && AllFit(RespondAll(services, w.sent))
    ensures AllFit(RespondAll(services, w.batches[0]))
  {
    hide Respond, Ok, Fits, Pipe;
    GotWasSent(w.sent, w.toServer, w.requests, w.serverIn);
    var rs := RespondAll(services, w.batches[0]);
    forall r | r in rs
      ensures Fits(r)
    {
      var i :| 0 <= i < |rs| && rs[i] == r;
      var m := w.batches[0][i];
      assert m in w.sent;
      var k :| 0 <= k < |w.sent| && w.sent[k] == m;
      assert RespondAll(services, w.sent)[k] == r;
    }
  }

  ghost predicate SameCalls(s: Client, t: Client) {
    && t.writeDones == s.writeDones && t.calls.Keys == s.calls.Keys
    && forall id :: id in s.calls ==> SameCall(s.calls[id], t.calls[id])
  }

  /** The client can read, frame by frame, everything that is on its way to it. */
  lemma {:induction false} ClientDrains(w: World, services: Services, parses: Parsing) returns (es: seq<Event>)
    requires Good(w, services, parses) && !w.clientDown
    ensures var v := Play(w, es, services, parses);
      && Good(v, services, parses) && v.toClient == [] && v.toServer == w.toServer && v.batches == w.batches
      && SameCalls(w.client, v.client)
    decreases |w.replied| - |w.replies|
  {
    hide Good, DecodeArray, Next, SameCall;
    es := [];
    if w.toClient == [] {
      assert SameCalls(w.client, w.client) by { SameAsItself(w.client); }
    } else {
      var n := NextToClient(w, services, parses);
      var e := ReachClient(n, []);
      var t := Step(w, e, services, parses);
      StepKeepsGood(w, e, services, parses);
      var fs := ClientDrains(t, services, parses);
      PlayOne(w, e, fs, services, parses);
      es := [e] + fs;
      var r := DecodeArray([] + (w.clientIn + w.toClient[..n]), 0);
      RepliesKeepCalls(w.client, r.out, parses);
      assert SameCalls(w.client, t.client);
      SameTransitive(w.client, t.client, Play(w, es, services, parses).client);
    }
  }

  lemma SameAsItself(s: Client)
    ensures SameCalls(s, s)
  {
  }

  lemma SameTransitive(s: Client, t: Client, u: Client)
    requires SameCalls(s, t) && SameCalls(t, u)
    ensures SameCalls(s, u)
  {
  }

  lemma DeliverKeepsCalls(s: Client, m: Message, parses: Parsing)
    ensures SameCalls(s, Deliver(s, m, parses))
  {
  }

  lemma {:induction false} RepliesKeepCalls(s: Client, ms: seq<Message>, parses: Parsing)
    ensures SameCalls(s, Next(s, Replies(ms), parses))
    decreases |ms|
  {
    hide Deliver, SameCalls;
    if ms == [] {
      SameAsItself(s);
    } else {
      var t := Deliver(s, ms[0], parses);
      RepliesOneByOne(s, ms, parses);
      DeliverKeepsCalls(s, ms[0], parses);
      RepliesKeepCalls(t, ms[1..], parses);
      SameTransitive(s, t, Next(s, Replies(ms), parses));
    }
  }

  /** From every reachable state with both sides up, the run can go on to a quiet one, without a fault, so
      that every pushed call completes; a call that had not timed out runs its closure with its own response.
      All it takes is that the responses fit their frames. */
  lemma CanComplete(es: seq<Event>, services: Services, parses: Parsing) returns (more: seq<Event>)
    requires var w := Play(START, es, services, parses);
      && !w.serverDown && !w.clientDown
      && AllFit(RespondAll(services, w.sent + Connections.Messages(w.client.writeDones)))
    ensures var w, v := Play(START, es, services, parses), Play(START, es + more, services, parses);
      && Quiet(v)
      && forall id :: id in w.client.calls && w.client.calls[id].pushed ==>
           && id in v.client.calls && SameCall(w.client.calls[id], v.client.calls[id])
           && Completed(v.client.calls[id], services, parses)
  {
    hide Good, RespondAll, Fits, Completed, SameCall, Encoding;
    var w := Play(START, es, services, parses);
    ReachedIsGood(es, services, parses);
    var w1 := Step(w, Send, services, parses);
    StepKeepsGood(w, Send, services, parses);
    var e1 := ServerDrains(w1, services, parses);
    var w2 := Play(w1, e1, services, parses);
    var e2 := BatchesDrain(w2, services, parses);
    var w3 := Play(w2, e2, services, parses);
    var e3 := ClientDrains(w3, services, parses);
    var v := Play(w3, e3, services, parses);
    more := [Send] + (e1 + (e2 + e3));
    PlayAppend(START, es, more, services, parses);
    PlayOne(w, Send, e1 + (e2 + e3), services, parses);
    PlayAppend(w1, e1, e2 + e3, services, parses);
    PlayAppend(w2, e2, e3, services, parses);
    FlushKeeps(w.client, parses);
    forall id | id in w.client.calls && w.client.calls[id].pushed
      ensures id in v.client.calls && SameCall(w.client.calls[id], v.client.calls[id])
      ensures Completed(v.client.calls[id], services, parses)
    {
      assert v.client.calls[id].pushed by { assert SameCalls(w3.client, v.client); PushedToo(w3.client, v.client, id); }
      QuietIsComplete(v, services, parses, id);
    }
  }

  lemma PushedToo(s: Client, t: Client, id: bytes)
    requires SameCalls(s, t) && id in s.calls
    ensures t.calls[id].pushed == s.calls[id].pushed
  {
  }

  /** What a call of a registered method gets, with the numbers of the protocol: a request of type 0 for
      `service.name` whose method makes `d` of its payload is answered with `d` and code 0, and its closure sees
      that or the timeout, and certainly that when all is quiet and the timer has not fired. */
  lemma CallGetsItsResult(es: seq<Event>, services: Services, parses: Parsing, id: bytes, service: bytes, name: bytes,
                          data: bytes, d: bytes)
    requires id in Play(START, es, services, parses).client.calls
    requires Play(START, es, services, parses).client.calls[id].request
             == Message(0, id, service + [0x2E] + name, 0, data, 0)
    requires 0x2E !in service && service in services && name in services[service].methods
    requires services[service].methods[name](data) == Served(d)
    ensures var w := Play(START, es, services, parses);
      var c, full := w.client.calls[id], service + [0x2E] + name;
      && (c.firstReply.Some? ==> c.firstReply.value == Message(0, id, full, 0, d, 0))
      && (c.sameController ==> c.runs == [] || c.runs == [Seen(1000_0007, None)] || c.runs == [Seen(0, Some(d))])
      && (Quiet(w) && c.pushed && c.hasClosure && !c.isCanceled && parses(full, d) ==> c.runs == [Seen(0, Some(d))])
  {
    hide Respond, Play;
    var w := Play(START, es, services, parses);
    CallIsServed(services, w.client.calls[id].request, service, name);
    EndToEnd(es, services, parses, id);
    if Quiet(w) && w.client.calls[id].pushed {
      Quiescence(es, services, parses, id);
    }
  }

  /** Such calls exist: any request that fits, and whose response fits and parses, can be made, and the run can go
      on so that its closure runs with the response. */
  lemma CallCompletes(request: Message, services: Services, parses: Parsing) returns (more: seq<Event>)
    requires Fits(request) && request.msgId != [] && Fits(Respond(services, request))
    requires parses(request.methodName, Respond(services, request).pbData)
    ensures var r, id := Respond(services, request), request.msgId;
      var w := Play(START, [Local(AddTimer(request, true, true)), Local(Push(id))] + more, services, parses);
      id in w.client.calls && w.client.calls[id].runs == [Seen(r.errorCode, Some(r.pbData))]
  {
    hide Respond, Fits;
    var id := request.msgId;
    var es := [Local(AddTimer(request, true, true)), Local(Push(id))];
    var w := TwoSteps(request, services, parses);
    assert Connections.Messages(w.client.writeDones) == [request];
    assert RespondAll(services, w.sent + [request]) == [Respond(services, request)];
    more := CanComplete(es, services, parses);
  }

  lemma TwoSteps(request: Message, services: Services, parses: Parsing) returns (w: World)
    requires Fits(request) && request.msgId != []
    ensures w == Play(START, [Local(AddTimer(request, true, true)), Local(Push(request.msgId))], services, parses)
    ensures w == START.(client := w.client) && w.client.writeDones == [(request, ForCall(request.msgId))]
    ensures w.client.calls == map[request.msgId := NewCall(request, true, true).(pushed := true)]
  {
    hide Fits;
    var id := request.msgId;
    var e, f := Local(AddTimer(request, true, true)), Local(Push(id));
    var w1 := Step(START, e, services, parses);
    w := Step(w1, f, services, parses);
    PlayOne(START, e, [f], services, parses);
    assert [e] + [f] == [e, f];
    assert [f][1..] == [];
    assert Play(w1, [f], services, parses) == w;
  }
}
