/** A server connection served on its own loop (src/net/TcpServer.cpp without worker threads): the bytes
    it sends are a function of the bytes it has received. */
module TcpServers {
  import opened Bytes
  import Buffers
  import opened TinyPB
  import opened TinyPBStream
  import opened Connections
  import Dispatcher
  import TinyPBCoder

  /** Everything decoded so far has been answered, in order: what the socket took and what still waits are
      together the frames of the responses to exactly the requests decoded. Those are the requests that the
      bytes received contain, unless a decode strayed. */
  ghost predicate Answered<D>(conn: Connection<D>, services: Dispatcher.Services)
    reads conn, conn.outputBuffer, conn.outputBuffer.buffer
    requires conn.outputBuffer.Valid()
  {
    var responses := Dispatcher.RespondAll(services, conn.decoded);
    && conn.submitted == responses
    && conn.written + conn.outputBuffer.Contents() == Encoding(responses)
    && (!conn.strayed ==> conn.decoded == Decode(conn.received).out)
  }

  lemma RespondAllAppend(services: Dispatcher.Services, a: seq<Message>, b: seq<Message>)
    ensures Dispatcher.RespondAll(services, a + b) ==
            Dispatcher.RespondAll(services, a) + Dispatcher.RespondAll(services, b)
  {
  }

  /** A new connection has received nothing and owes nothing. */
  method Accept<D>(services: Dispatcher.Services) returns (conn: Connection<D>)
    ensures fresh(conn) && fresh(conn.inputBuffer) && fresh(conn.outputBuffer)
    ensures fresh(conn.inputBuffer.buffer) && fresh(conn.outputBuffer.buffer)
    ensures conn.Valid() && conn.isServer && !conn.disConnect && Answered(conn, services)
    ensures conn.received == [] && conn.decoded == [] && !conn.strayed
    ensures conn.inputBuffer.buffer.Length == Buffers.INITIAL_SIZE
  {
    hide DecodeFrom;
    conn := new Connection(true);
    DecodeOfNothing();
    assert Encoding([]) == [];
  }

  /** One read event: the requests that became complete are dispatched and their replies submitted. It
      keeps the connection answered, in whatever pieces the bytes arrive. Whether it faults is what
      decoding the window in its array says, and it never does unless the window strays. */
  method HandleMessage<D>(conn: Connection<D>, services: Dispatcher.Services, incoming: bytes, cuts: seq<nat>)
    returns (fault: bool, ghost stale: bytes)
    requires conn.Valid() && conn.isServer && !conn.disConnect && Answered(conn, services)
    requires conn.inputBuffer.writeIndex + |incoming| <= INT32_MAX
    modifies conn, conn.inputBuffer, conn.inputBuffer.buffer, conn.outputBuffer, conn.outputBuffer.buffer
    ensures conn.inputBuffer.buffer == old(conn.inputBuffer.buffer) || fresh(conn.inputBuffer.buffer)
    ensures conn.outputBuffer.buffer == old(conn.outputBuffer.buffer) || fresh(conn.outputBuffer.buffer)
    ensures conn.received == old(conn.received) + incoming && !conn.disConnect
    ensures |stale| <= old(conn.inputBuffer.readIndex)
    ensures var window := old(conn.inputBuffer.Contents()) + incoming;
      && fault == DecodeArray(stale + window, |stale|).fault
      && conn.strayed == (old(conn.strayed) || FaultsAt(window, |stale|))
      && (fault || (conn.strayed && !old(conn.strayed)) ==> FaultsAt(window, old(conn.inputBuffer.readIndex)))
      && ArrayBound(conn.inputBuffer.buffer.Length, old(conn.inputBuffer.buffer.Length), |window|)
    ensures !fault ==>
      && conn.Valid() && Answered(conn, services) && conn.written == old(conn.written)
      && conn.decoded == old(conn.decoded)
         + DecodeArray(stale + old(conn.inputBuffer.Contents()) + incoming, |stale|).out
  {
    hide Dispatcher.Respond, Decode, DecodeArray, FaultsAt, Encoding, Buffers.Buffer.Contents, ArrayBound;
    var requests, fired;
    ghost var batch;
    requests, fired, fault, batch, stale := conn.OnMessage(incoming, cuts, false);
    Associative(stale, old(conn.inputBuffer.Contents()), incoming);
    if fault {
      return;
    }
    var replies := Dispatcher.OnMessage(services, requests);
    conn.RegSend(replies);
    RespondAllAppend(services, old(conn.decoded), batch);
  }

  /** A connection that has received nothing but bytes of the frames of `ms`, each of at most `max` bytes, in
      read events of at most `most` bytes: it is answered, what it decoded are the messages that are complete
      in those bytes, and its input array has not outgrown its bound. */
  ghost predicate Honest<D>(conn: Connection<D>, services: Dispatcher.Services, ms: seq<Message>, max: nat, most: nat)
    reads conn, conn.inputBuffer, conn.inputBuffer.buffer, conn.outputBuffer, conn.outputBuffer.buffer
  {
    && conn.Valid() && conn.isServer && !conn.disConnect && !conn.strayed && Answered(conn, services)
    && Sendable(ms) && FramesUpTo(ms, max) && InRange(max, most)
    && conn.received <= Encoding(ms) && conn.decoded == ms[..Complete(ms, |conn.received|)]
    && conn.inputBuffer.buffer.Length <= max + most + Buffers.EXTRA_SIZE
  }

  /** One more read event of such a connection does not fault and leaves it such a connection. */
  method HandleHonestMessage<D>(conn: Connection<D>, services: Dispatcher.Services, incoming: bytes, cuts: seq<nat>,
                                ghost ms: seq<Message>, ghost max: nat, ghost most: nat)
    returns (fault: bool)
    requires Honest(conn, services, ms, max, most)
    requires conn.received + incoming <= Encoding(ms) && |incoming| <= most
    modifies conn, conn.inputBuffer, conn.inputBuffer.buffer, conn.outputBuffer, conn.outputBuffer.buffer
    ensures conn.inputBuffer.buffer == old(conn.inputBuffer.buffer) || fresh(conn.inputBuffer.buffer)
    ensures conn.outputBuffer.buffer == old(conn.outputBuffer.buffer) || fresh(conn.outputBuffer.buffer)
    ensures !fault && Honest(conn, services, ms, max, most)
    ensures conn.received == old(conn.received) + incoming && conn.written == old(conn.written)
  {
    hide Dispatcher.Respond, DecodeFrom, DecodeArray, Encoding, Buffers.Buffer.Contents;
    conn.HonestRead(incoming, ms, max, most);
    ghost var stale;
    fault, stale := HandleMessage(conn, services, incoming, cuts);
  }

  /** One write event keeps a connection answered too, however much the socket takes. */
  method HandleWrite<D>(conn: Connection<D>, services: Dispatcher.Services, env: seq<Buffers.Taken>)
    requires conn.Valid() && conn.isServer && !conn.disConnect && Answered(conn, services)
    modifies conn, conn.outputBuffer, conn.outputBuffer.buffer
    ensures conn.outputBuffer.buffer == old(conn.outputBuffer.buffer) || fresh(conn.outputBuffer.buffer)
    ensures conn.Valid() && Answered(conn, services) && !conn.disConnect && conn.strayed == old(conn.strayed)
    ensures conn.received == old(conn.received) && conn.decoded == old(conn.decoded)
    ensures |conn.written| == |old(conn.written)| + Leaving(env, |old(conn.outputBuffer.Contents())|)
  {
    hide Dispatcher.Respond, Decode, Encoding;
    assert Encoding([]) == [] by { NoEncoding(); }
    conn.SendMessage(env);
  }

  /** So does one more write event. */
  method HandleHonestWrite<D>(conn: Connection<D>, services: Dispatcher.Services, env: seq<Buffers.Taken>,
                              ghost ms: seq<Message>, ghost max: nat, ghost most: nat)
    requires Honest(conn, services, ms, max, most)
    modifies conn, conn.outputBuffer, conn.outputBuffer.buffer
    ensures conn.outputBuffer.buffer == old(conn.outputBuffer.buffer) || fresh(conn.outputBuffer.buffer)
    ensures Honest(conn, services, ms, max, most) && conn.received == old(conn.received)
    ensures |conn.written| == |old(conn.written)| + Leaving(env, |old(conn.outputBuffer.Contents())|)
    ensures conn.submitted == old(conn.submitted)
    ensures Offered(env) >= |Encoding(conn.submitted)| ==> conn.written == Encoding(conn.submitted)
  {
    hide Dispatcher.Respond, DecodeFrom, Encoding, Buffers.Buffer.Contents;
    assert old(conn.written) + old(conn.outputBuffer.Contents()) == Encoding(conn.submitted);
    LeavingIsLeast(env, |conn.outputBuffer.Contents()|);
    HandleWrite(conn, services, env);
    assert |conn.written| == |Encoding(conn.submitted)| ==> conn.written + conn.outputBuffer.Contents() == conn.written;
  }

  /** What the loop reports on a connection's socket, and what the calls on it then find. */
  datatype Ready = Readable(incoming: bytes, cuts: seq<nat>) | Writable(env: seq<Buffers.Taken>)

  function Incoming(events: seq<Ready>): bytes {
    if events == [] then []
    else
      var n := |events| - 1;
      Incoming(events[..n]) + if events[n].Readable? then events[n].incoming else []
  }

  lemma IncomingStep(events: seq<Ready>, i: nat)
    requires i < |events|
    ensures Incoming(events[..i + 1]) == Incoming(events[..i]) + if events[i].Readable? then events[i].incoming else []
  {
    assert events[..i + 1][..i] == events[..i];
  }

  lemma {:induction false} IncomingGrows(events: seq<Ready>, i: nat)
    requires i <= |events|
    ensures Incoming(events[..i]) <= Incoming(events)
    decreases |events| - i
  {
    if i < |events| {
      IncomingStep(events, i);
      IncomingGrows(events, i + 1);
    } else {
      assert events[..i] == events;
    }
  }

  /** A last write event in which the socket takes everything has left nothing behind. */
  ghost predicate Flushed<D>(events: seq<Ready>, conn: Connection<D>)
    reads conn
  {
    var n := |events|;
    (n > 0 && events[n - 1].Writable? && Offered(events[n - 1].env) >= |Encoding(conn.submitted)|) ==>
      conn.written == Encoding(conn.submitted)
  }

  /** The whole life of a connection whose peer sends frames: whatever the reads and writes are and however they
      alternate, no event ever faults, and what was taken by the socket and what still waits are the frames of
      the responses to exactly the messages that are complete in the bytes received. */
  method Serve<D>(services: Dispatcher.Services, events: seq<Ready>, ghost ms: seq<Message>, ghost max: nat,
                  ghost most: nat)
    returns (conn: Connection<D>, fault: bool)
    requires Sendable(ms) && FramesUpTo(ms, max) && InRange(max, most)
    requires Incoming(events) <= Encoding(ms)
    requires forall e :: e in events && e.Readable? ==> |e.incoming| <= most
    ensures !fault && Honest(conn, services, ms, max, most) && conn.received == Incoming(events)
    ensures Flushed(events, conn)
  {
    hide Dispatcher.Respond, DecodeFrom, Encoding, Buffers.Buffer.Contents, Connection.Valid, Answered;
    conn := Accept(services);
    fault := false;
    NothingComplete(ms);
    assert Honest(conn, services, ms, max, most);
    hide Honest;
    for i := 0 to |events|
      invariant fresh(conn) && fresh(conn.inputBuffer) && fresh(conn.outputBuffer)
      invariant fresh(conn.inputBuffer.buffer) && fresh(conn.outputBuffer.buffer)
      invariant !fault && Honest(conn, services, ms, max, most) && conn.received == Incoming(events[..i])
      invariant Flushed(events[..i], conn)
    {
      IncomingStep(events, i);
      IncomingGrows(events, i + 1);
      assert events[i] in events;
      match events[i] {
        case Readable(incoming, cuts) => fault := HandleHonestMessage(conn, services, incoming, cuts, ms, max, most);
        case Writable(env) => HandleHonestWrite(conn, services, env, ms, max, most);
      }
    }
    assert events[..|events|] == events;
  }

  lemma NothingComplete(ms: seq<Message>)
    ensures Complete(ms, 0) == 0 && DecodeFrom([], 0, Unbounded([])).out == []
  {
  }
}
