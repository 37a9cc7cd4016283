/** The connection of src/net/Connection.cpp: socket reads into the input buffer and decoding, requests
    waiting to be sent, callbacks waiting for their reply, and socket writes from the output buffer. */
module Connections {
  import opened Bytes
  import opened Buffers
  import opened TinyPB
  import opened TinyPBStream
  import TinyPBCoder

  /** Sending a queued request registers its reply callback `D` under its id. `std::map::insert` keeps an
      entry that is already there. */
  function Register<D>(readDones: map<bytes, D>, sent: seq<(Message, D)>): map<bytes, D>
    decreases |sent|
  {
    if sent == [] then readDones
    else
      var (m, done) := sent[0];
      Register(if m.msgId in readDones then readDones else readDones[m.msgId := done], sent[1..])
  }

  /** The callbacks that a batch of replies runs, and those still registered afterwards. */
  function Match<D>(readDones: map<bytes, D>, replies: seq<Message>): (seq<(D, Message)>, map<bytes, D>)
    decreases |replies|
  {
    if replies == [] then ([], readDones)
    else
      var m := replies[0];
      if m.msgId in readDones then
        var (fired, rest) := Match(readDones - {m.msgId}, replies[1..]);
        ([(readDones[m.msgId], m)] + fired, rest)
      else Match(readDones, replies[1..])
  }

  function Messages<D>(sent: seq<(Message, D)>): (ms: seq<Message>)
    ensures |ms| == |sent|
  {
    seq(|sent|, i requires 0 <= i < |sent| => sent[i].0)
  }

  lemma {:induction false} RegisterAppend<D>(readDones: map<bytes, D>, sent: seq<(Message, D)>, m: Message, done: D)
    ensures var r := Register(readDones, sent);
      Register(readDones, sent + [(m, done)]) == if m.msgId in r then r else r[m.msgId := done]
    ensures Register(readDones, []) == readDones
    decreases |sent|
  {
    if sent == [] {
      assert sent + [(m, done)] == [(m, done)];
    } else {
      var next := if sent[0].0.msgId in readDones then readDones else readDones[sent[0].0.msgId := sent[0].1];
      RegisterAppend(next, sent[1..], m, done);
      assert (sent + [(m, done)])[1..] == sent[1..] + [(m, done)];
    }
  }

  lemma {:induction false} MatchAppend<D>(readDones: map<bytes, D>, replies: seq<Message>, m: Message)
    ensures var (fired, rest) := Match(readDones, replies);
      Match(readDones, replies + [m]) ==
      if m.msgId in rest then (fired + [(rest[m.msgId], m)], rest - {m.msgId}) else (fired, rest)
    ensures Match(readDones, []) == ([], readDones)
    decreases |replies|
  {
    if replies == [] {
      var one, none: seq<Message> := [m], [];
      assert replies + [m] == one && one[1..] == none;
      assert Match(readDones - {m.msgId}, none) == ([], readDones - {m.msgId});
      assert Match(readDones, none) == ([], readDones);
      if m.msgId in readDones {
        var first: seq<(D, Message)> := [(readDones[m.msgId], m)];
        assert first + [] == first == [] + first;
      }
    } else {
      assert (replies + [m])[0] == replies[0] && (replies + [m])[1..] == replies[1..] + [m];
      if replies[0].msgId in readDones {
        MatchAppend(readDones - {replies[0].msgId}, replies[1..], m);
        var (fired, rest) := Match(readDones - {replies[0].msgId}, replies[1..]);
        var first := [(readDones[replies[0].msgId], replies[0])];
        if m.msgId in rest {
          assert first + (fired + [(rest[m.msgId], m)]) == first + fired + [(rest[m.msgId], m)];
        }
      } else {
        MatchAppend(readDones, replies[1..], m);
      }
    }
  }

  lemma NoEncoding()
    ensures Encoding([]) == []
  {
  }

  lemma TakenFromFront(waiting: bytes, gone: nat, taken: bytes, rest: bytes)
    requires gone <= |waiting| && waiting[gone..] == taken + rest
    ensures gone + |taken| <= |waiting| && rest == waiting[gone + |taken|..]
    ensures waiting[..gone] + taken == waiting[..gone + |taken|]
  {
    assert waiting == waiting[..gone] + (taken + rest);
  }

  lemma DecodeOfNothing()
    ensures Decode([]) == Decoded([], 0, false)
  {
  }

  /** What decoding `window` does with the bytes `stale` in front of it in the array, of which there are at
      most `base`: the messages, and what the window holds afterwards. Unless the decode strays, it is what
      the window alone determines. */
  ghost predicate Outcome(window: bytes, stale: bytes, base: nat, fault: bool, batch: seq<Message>, rest: bytes) {
    var r, d := DecodeArray(stale + window, |stale|), Decode(window);
    && |stale| <= base && fault == r.fault && batch == r.out
    && (!fault ==> rest == (stale + window)[r.stop..])
    && (FaultsAt(window, |stale|) ==> FaultsAt(window, base))
    && (FaultsAt(window, |stale|) && !fault ==> BeyondFault(batch, window))
    && (!FaultsAt(window, |stale|) ==> !fault && !d.fault && batch == d.out && rest == window[d.stop..])
  }

  lemma OutcomeOfDecode(window: bytes, stale: bytes, fault: bool, rest: bytes)
    requires var r := DecodeArray(stale + window, |stale|);
      fault == r.fault && (!fault ==> rest == (stale + window)[r.stop..])
    ensures Outcome(window, stale, |stale|, fault, DecodeArray(stale + window, |stale|).out, rest)
  {
    hide DecodeFrom, DecodeArray;
    DecodeArrayAgrees(stale, window, 0);
    if !FaultsAt(window, |stale|) {
      DecodeWithinRange(window, |stale|);
    } else if !DecodeArray(stale + window, |stale|).fault {
      GoesOnPastBadLength(stale, window);
    }
  }

  /** What a decode call without a fault makes of a receiver that is in step, or beyond a fault. */
  lemma OutcomeStep(s: Received, stream: bytes, chunk: bytes, strayed: bool, stale: bytes,
                    batch: seq<Message>, rest: bytes)
    requires !s.fault && if strayed then BeyondFault(s.out, stream) else InStep(s, stream)
    requires Outcome(s.pending + chunk, stale, |stale|, false, batch, rest)
    ensures if strayed || FaultsAt(s.pending + chunk, |stale|) then BeyondFault(s.out + batch, stream + chunk)
            else InStep(Received(s.out + batch, rest, false), stream + chunk)
                 && s.out + batch == Decode(stream + chunk).out
  {
    hide DecodeFrom, DecodeArray;
    if strayed {
      BeyondFaultStays(s.out, stream, batch, chunk);
    } else if FaultsAt(s.pending + chunk, |stale|) {
      BeyondFaultBegins(s, stream, batch, chunk);
    } else {
      FeedKeepsStep(s, stream, chunk);
    }
  }

  lemma OutcomeLater(window: bytes, stale: bytes, base: nat, later: nat, fault: bool, batch: seq<Message>, rest: bytes)
    requires Outcome(window, stale, base, fault, batch, rest) && base <= later
    ensures Outcome(window, stale, later, fault, batch, rest)
  {
    hide DecodeFrom, DecodeArray, Decode;
    if FaultsAt(window, base) {
      FaultsAtLater(window, base, later);
    }
  }

  /** One read and decode call in place: the bytes that arrive, and those in front of the window by then. */
  datatype Piece = Piece(chunk: bytes, stale: bytes)

  function FeedInPlace(s: Received, p: Piece): Received {
    if s.fault then s
    else
      var a := p.stale + (s.pending + p.chunk);
      var r := DecodeArray(a, |p.stale|);
      Received(s.out + r.out, a[r.stop..], r.fault)
  }

  function FeedAllInPlace(s: Received, ps: seq<Piece>): Received
    decreases |ps|
  {
    if ps == [] then s else FeedAllInPlace(FeedInPlace(s, ps[0]), ps[1..])
  }

  function Arrived(ps: seq<Piece>): bytes {
    if ps == [] then [] else ps[0].chunk + Arrived(ps[1..])
  }

  /** One of the calls meets a candidate at which its window does not determine what happens. */
  predicate Strays(s: Received, ps: seq<Piece>)
    decreases |ps|
  {
    && ps != [] && !s.fault
    && (FaultsAt(s.pending + ps[0].chunk, |ps[0].stale|) || Strays(FeedInPlace(s, ps[0]), ps[1..]))
  }

  /** Any stream and any way of cutting it, decoded in place: unless a call strays, the outcome is that of one
      decode of the whole stream, whatever stood in front of the windows. A receiver that strays faults, or has
      all the messages of that decode, which faults at a length that is not positive. */
  lemma InPlaceIsBatch(ps: seq<Piece>)
    ensures var s := FeedAllInPlace(NOTHING, ps);
      && (!Strays(NOTHING, ps) ==> !s.fault && InStep(s, Arrived(ps)))
      && (s.fault || InStep(s, Arrived(ps)) || BeyondFault(s.out, Arrived(ps)))
  {
    InPlaceFrom(NOTHING, [], ps, false);
    assert [] + Arrived(ps) == Arrived(ps);
  }

  lemma {:induction false} InPlaceFrom(s: Received, stream: bytes, ps: seq<Piece>, strayed: bool)
    requires !s.fault && if strayed then BeyondFault(s.out, stream) else InStep(s, stream)
    ensures var t := FeedAllInPlace(s, ps);
      && (!strayed && !Strays(s, ps) ==> !t.fault && InStep(t, stream + Arrived(ps)))
      && (t.fault || InStep(t, stream + Arrived(ps)) || BeyondFault(t.out, stream + Arrived(ps)))
    decreases |ps|
  {
    hide Decode, DecodeArray, InStep, BeyondFault, FaultsAt, Outcome;
    if ps == [] {
      assert stream + Arrived(ps) == stream;
    } else {
      var p, t := ps[0], FeedInPlace(s, ps[0]);
      var batch := DecodeArray(p.stale + (s.pending + p.chunk), |p.stale|).out;
      OutcomeOfDecode(s.pending + p.chunk, p.stale, t.fault, t.pending);
      if t.fault {
        NoMoreInPlace(t, ps[1..]);
        NoFaultUnlessStrays(s.pending + p.chunk, p.stale, batch, t.pending);
      } else {
        OutcomeStep(s, stream, p.chunk, strayed, p.stale, batch, t.pending);
        InPlaceFrom(t, stream + p.chunk, ps[1..], strayed || FaultsAt(s.pending + p.chunk, |p.stale|));
        Associative(stream, p.chunk, Arrived(ps[1..]));
      }
    }
  }

  lemma NoFaultUnlessStrays(window: bytes, stale: bytes, batch: seq<Message>, rest: bytes)
    requires Outcome(window, stale, |stale|, true, batch, rest)
    ensures FaultsAt(window, |stale|)
  {
  }

  lemma {:induction false} NoMoreInPlace(s: Received, ps: seq<Piece>)
    requires s.fault
    ensures FeedAllInPlace(s, ps) == s
    decreases |ps|
  {
    if ps != [] {
      NoMoreInPlace(s, ps[1..]);
    }
  }

  lemma StaleAndWindow(buffer: Buffer)
    requires buffer.Valid()
    ensures buffer.buffer[..buffer.writeIndex] == buffer.buffer[..buffer.readIndex] + buffer.Contents()
  {
  }

  /** Two frames, two reads and one side buffer are within the index range. */
  predicate InRange(max: nat, most: nat) { 2 * max + 2 * most + EXTRA_SIZE <= INT32_MAX }

  /** A read event lets the input array grow at most to its window and one side buffer. */
  predicate ArrayBound(length: nat, before: nat, window: nat) {
    length <= before || length <= window + EXTRA_SIZE
  }

  /** How many of `n` waiting bytes leave when the socket does `env`, attempt by attempt, and is full
      after that. */
  function Leaving(env: seq<Taken>, n: nat): (k: nat)
    ensures k <= n
    decreases |env|
  {
    if env == [] || env[0].Full? then 0
    else if n <= env[0].room then n
    else env[0].room + Leaving(env[1..], n - env[0].room)
  }

  /** What the socket would take before it is full for the first time. */
  function Offered(env: seq<Taken>): nat {
    if env == [] || env[0].Full? then 0 else env[0].room + Offered(env[1..])
  }

  /** All that waits leaves, or as much as the socket takes before it is full. */
  lemma {:induction false} LeavingIsLeast(env: seq<Taken>, n: nat)
    ensures Leaving(env, n) == if n <= Offered(env) then n else Offered(env)
    decreases |env|
  {
    if env != [] && env[0].Room? && env[0].room < n {
      LeavingIsLeast(env[1..], n - env[0].room);
    }
  }

  /** One attempt to write what is left of `waiting`, of which `gone` bytes have left. */
  lemma OneAttempt(env: seq<Taken>, k: nat, waiting: bytes, gone: nat, taken: bytes, rest: bytes, before: bytes)
    requires k <= |env| && gone <= |waiting| && waiting[gone..] == taken + rest
    requires k == |env| || env[k].Full? ==> taken == []
    requires k < |env| && env[k].Room? ==>
      |taken| == if env[k].room <= |waiting| - gone then env[k].room else |waiting| - gone
    ensures var left := gone + |taken|;
      && left <= |waiting| && rest == waiting[left..]
      && before + waiting[..gone] + taken == before + waiting[..left]
      && (rest == [] || k == |env| || env[k].Full? ==> Leaving(env[k..], |waiting| - gone) == |taken|)
      && (rest != [] && k < |env| && env[k].Room? ==>
           Leaving(env[k..], |waiting| - gone) == |taken| + Leaving(env[k + 1..], |waiting| - left))
  {
    TakenFromFront(waiting, gone, taken, rest);
    Associative(before, waiting[..gone], taken);
    if k < |env| {
      assert env[k..][0] == env[k] && env[k..][1..] == env[k + 1..];
    }
  }

  class Connection<D> {
    const isServer: bool
    const inputBuffer: Buffer
    const outputBuffer: Buffer
    var disConnect: bool
    var reading: bool
    var writing: bool
    var writeDones: seq<(Message, D)>
    var readDones: map<bytes, D>

    // History: what the socket delivered, what was decoded from it, and whether a decode met a candidate
    // at which the window did not determine what happens; what was submitted for sending and what the
    // socket took.
    ghost var received: bytes
    ghost var decoded: seq<Message>
    ghost var strayed: bool
    ghost var submitted: seq<Message>
    ghost var written: bytes

    ghost predicate Valid()
      reads this, inputBuffer, outputBuffer, inputBuffer.buffer, outputBuffer.buffer
    {
      && inputBuffer != outputBuffer && inputBuffer.buffer != outputBuffer.buffer
      && inputBuffer.Valid() && outputBuffer.Valid()
      && InputInStep() && OutputInStep()
    }

    /** Unless it was closed, the connection has got out of the bytes received exactly what one decode of all of
        them yields, and holds exactly what that decode leaves over; or, if it strayed, it went on past a
        fault of that decode, with all its messages. */
    ghost predicate InputInStep()
      reads this, inputBuffer, inputBuffer.buffer
      requires inputBuffer.Valid()
    {
      && (!disConnect && !strayed ==> InStep(Received(decoded, inputBuffer.Contents(), false), received))
      && (!disConnect && strayed ==> BeyondFault(decoded, received))
    }

    /** The bytes the socket took, followed by those in the output buffer, are the frames of everything
        submitted, in order; on the server side, bytes still to be written keep write interest on. */
    ghost predicate OutputInStep()
      reads this, outputBuffer, outputBuffer.buffer
      requires outputBuffer.Valid()
    {
      && written + outputBuffer.Contents() == Encoding(submitted)
      && (isServer && outputBuffer.Contents() != [] ==> writing)
    }

    constructor (isServer: bool)
      ensures Valid() && fresh(inputBuffer) && fresh(outputBuffer)
      ensures fresh(inputBuffer.buffer) && fresh(outputBuffer.buffer)
      ensures this.isServer == isServer && !disConnect && !strayed && inputBuffer.buffer.Length == INITIAL_SIZE
      ensures writeDones == [] && readDones == map[] && received == written == [] && submitted == decoded == []
    {
      hide DecodeFrom, Encoding, BeyondFault;
      this.isServer := isServer;
      inputBuffer := new Buffer();
      outputBuffer := new Buffer();
      disConnect, reading, writing := false, false, false;
      writeDones, readDones := [], map[];
      received, decoded, submitted, written, strayed := [], [], [], [], false;
      new;
      assert DecodeFrom([], 0, Unbounded([])) == Decoded([], 0, false) by { DecodeOfNothing(); }
      NoEncoding();
    }

    method PushSendMessage(message: Message, done: D)
      modifies this`writeDones
      ensures writeDones == old(writeDones) + [(message, done)]
    {
      writeDones := writeDones + [(message, done)];
    }

    method PushReadMessage(msgId: bytes, done: D)
      modifies this`readDones
      ensures readDones == if msgId in old(readDones) then old(readDones) else old(readDones)[msgId := done]
    {
      if msgId !in readDones {
        readDones := readDones[msgId := done];
      }
    }

    method PopReadMessage(msgId: bytes)
      modifies this`readDones
      ensures readDones == old(readDones) - {msgId}
    {
      if msgId in readDones {
        readDones := readDones - {msgId};
      }
    }

    /** Encodes a batch of replies behind what is already waiting and asks for write events. */
    method RegSend(replies: seq<Message>)
      requires Valid()
      modifies this`writing, this`submitted, outputBuffer, outputBuffer.buffer
      ensures Valid() && (outputBuffer.buffer == old(outputBuffer.buffer) || fresh(outputBuffer.buffer))
      ensures submitted == if disConnect then old(submitted) else old(submitted) + replies
      ensures writing == if disConnect then old(writing) else true
      ensures outputBuffer.Contents() == if disConnect then old(outputBuffer.Contents())
                                         else old(outputBuffer.Contents()) + Encoding(replies)
    {
      hide InStep, BeyondFault, Encoding, Buffer.Contents;
      if disConnect {
        return;
      }
      var sent := TinyPBCoder.Encode(replies, outputBuffer);
      EncodingAppend(submitted, replies);
      Associative(written, old(outputBuffer.Contents()), Encoding(replies));
      submitted := submitted + replies;
      writing := true;
    }

    /** The write event. A client first turns its queued requests into output, registering the reply
        callback of each before any of its bytes can leave. Then bytes go out until the buffer is empty,
        which ends write interest, or the socket is full. `env` is what the socket does, attempt by
        attempt; it is full after that. */
    method SendMessage(env: seq<Taken>)
      requires Valid()
      modifies this`writing, this`reading, this`writeDones, this`readDones, this`submitted, this`written
      modifies outputBuffer, outputBuffer.buffer
      ensures Valid() && (outputBuffer.buffer == old(outputBuffer.buffer) || fresh(outputBuffer.buffer))
      ensures disConnect || isServer ==>
        submitted == old(submitted) && readDones == old(readDones) && writeDones == old(writeDones)
      ensures !disConnect && !isServer ==>
        && submitted == old(submitted) + Messages(old(writeDones))
        && readDones == Register(old(readDones), old(writeDones)) && writeDones == []
      ensures reading == (old(reading) || (!disConnect && !isServer && old(writeDones) != []))
      ensures disConnect ==>
        written == old(written) && outputBuffer.Contents() == old(outputBuffer.Contents()) && writing == old(writing)
      ensures !disConnect ==>
        var waiting := old(outputBuffer.Contents()) + Encoding(if isServer then [] else Messages(old(writeDones)));
        var k := Leaving(env, |waiting|);
        && written == old(written) + waiting[..k] && outputBuffer.Contents() == waiting[k..]
        && writing == if k == |waiting| then false else old(writing)
    {
      hide InStep, BeyondFault, Encoding, Register, Messages, Buffer.Contents;
      if disConnect {
        return;
      }
      if isServer {
        assert old(outputBuffer.Contents()) + Encoding([]) == outputBuffer.Contents() by { NoEncoding(); }
      } else {
        SubmitRequests();
      }
      WriteOut(env);
    }

    /** Writes until the output buffer is empty or the socket is full. */
    method WriteOut(env: seq<Taken>)
      requires Valid()
      modifies this`writing, this`written, outputBuffer
      ensures Valid() && outputBuffer.buffer == old(outputBuffer.buffer)
      ensures var waiting := old(outputBuffer.Contents());
        var k := Leaving(env, |waiting|);
        && written == old(written) + waiting[..k] && outputBuffer.Contents() == waiting[k..]
        && writing == if k == |waiting| then false else old(writing)
    {
      hide InStep, BeyondFault, DecodeFrom, Encoding, Buffer.Contents, Leaving;
      ghost var waiting := outputBuffer.Contents();
      WriteLoop(env);
      ghost var k := Leaving(env, |waiting|);
      Associative(old(written), waiting[..k], waiting[k..]);
      assert waiting[..k] + waiting[k..] == waiting;
      assert |outputBuffer.Contents()| == |waiting| - k;
    }

    method WriteLoop(env: seq<Taken>)
      requires outputBuffer.Valid()
      modifies this`writing, this`written, outputBuffer
      ensures outputBuffer.Valid() && outputBuffer.buffer == old(outputBuffer.buffer)
      ensures var waiting := old(outputBuffer.Contents());
        var k := Leaving(env, |waiting|);
        && written == old(written) + waiting[..k] && outputBuffer.Contents() == waiting[k..]
        && writing == if k == |waiting| then false else old(writing)
    {
      hide Buffer.Contents, Leaving;
      ghost var waiting, gone := outputBuffer.Contents(), 0;
      var k := 0;
      assert env[0..] == env && old(written) + [] == old(written);
      while true
        invariant k <= |env| && 0 <= gone <= |waiting| && writing == old(writing)
        invariant outputBuffer.Valid() && outputBuffer.buffer == old(outputBuffer.buffer)
        invariant outputBuffer.Contents() == waiting[gone..] && written == old(written) + waiting[..gone]
        invariant Leaving(env, |waiting|) == gone + Leaving(env[k..], |waiting| - gone)
        decreases |env| - k
      {
        ghost var taken: bytes;
        var n;
        n, taken := outputBuffer.WriteFd(if k < |env| then env[k] else Full);
        OneAttempt(env, k, waiting, gone, taken, outputBuffer.Contents(), old(written));
        written := written + taken;
        gone := gone + |taken|;
        if outputBuffer.ReadableBytes() == 0 {
          writing := false;
          break;
        }
        if n < 0 {
          break;
        }
        k := k + 1;
      }
    }

    /** The client's part of the write event: every queued request is registered, and then all of them
        are encoded. */
    method SubmitRequests()
      requires Valid() && !isServer
      modifies this`reading, this`writeDones, this`readDones, this`submitted, outputBuffer, outputBuffer.buffer
      ensures Valid() && (outputBuffer.buffer == old(outputBuffer.buffer) || fresh(outputBuffer.buffer))
      ensures submitted == old(submitted) + Messages(old(writeDones))
      ensures outputBuffer.Contents() == old(outputBuffer.Contents()) + Encoding(Messages(old(writeDones)))
      ensures readDones == Register(old(readDones), old(writeDones)) && writeDones == []
      ensures reading == (old(reading) || old(writeDones) != [])
    {
      hide DecodeFrom, Buffer.Contents, InStep, BeyondFault, Encoding;
      var messages := [];
      for i := 0 to |writeDones|
        modifies this`reading, this`readDones
        invariant messages == Messages(writeDones[..i])
        invariant readDones == Register(old(readDones), writeDones[..i])
        invariant reading == (old(reading) || i > 0)
      {
        messages := messages + [writeDones[i].0];
        PushReadMessage(writeDones[i].0.msgId, writeDones[i].1);
        reading := true;
        RegisterAppend(old(readDones), writeDones[..i], writeDones[i].0, writeDones[i].1);
        assert writeDones[..i + 1] == writeDones[..i] + [(writeDones[i].0, writeDones[i].1)];
      }
      assert writeDones[..|writeDones|] == writeDones;
      writeDones := [];
      Submit(messages);
    }

    method Submit(messages: seq<Message>)
      requires Valid() && !isServer
      modifies this`submitted, outputBuffer, outputBuffer.buffer
      ensures Valid() && (outputBuffer.buffer == old(outputBuffer.buffer) || fresh(outputBuffer.buffer))
      ensures submitted == old(submitted) + messages
      ensures outputBuffer.Contents() == old(outputBuffer.Contents()) + Encoding(messages)
    {
      hide DecodeFrom, Buffer.Contents, InStep, BeyondFault, Encoding;
      var sent := TinyPBCoder.Encode(messages, outputBuffer);
      EncodingAppend(submitted, messages);
      Associative(written, old(outputBuffer.Contents()), Encoding(messages));
      submitted := submitted + messages;
    }

    /** A connection that has received nothing but frames of `ms`, and whose input array has grown to no more
        than a frame, a read and a side buffer, is safe from faults in one more read, and stays so. */
    lemma HonestRead(incoming: bytes, ms: seq<Message>, max: nat, most: nat)
      requires Valid() && !disConnect && !strayed
      requires Sendable(ms) && FramesUpTo(ms, max) && received + incoming <= Encoding(ms)
      requires |incoming| <= most && InRange(max, most) && inputBuffer.buffer.Length <= max + most + EXTRA_SIZE
      ensures inputBuffer.writeIndex + |incoming| <= INT32_MAX
      ensures !FaultsAt(inputBuffer.Contents() + incoming, inputBuffer.readIndex)
      ensures |inputBuffer.Contents() + incoming| <= max + most
      ensures Decode(received + incoming).out == ms[..Complete(ms, |received + incoming|)]
    {
      hide DecodeFrom, Encoding, Buffer.Contents;
      var s := Received(decoded, inputBuffer.Contents(), false);
      assert inputBuffer.readIndex + |s.pending| == inputBuffer.writeIndex by {
        assert inputBuffer.ReadableBytes() == |s.pending|;
      }
      var n := |received + incoming|;
      assert Encoding(ms)[..n] == received + incoming && Encoding(ms)[..|received|] == received;
      PrefixOfEncoding(ms, |received|, Unbounded(received));
      PrefixOfEncoding(ms, n, Unbounded(received + incoming));
      HonestInput(ms, s, received, incoming, inputBuffer.readIndex);
    }

    /** The read event: the socket is drained, each read taking a part of what is there and possibly
        being interrupted, and the bytes are decoded once; end of file closes the connection instead.
        `cuts` limits the successive reads, a zero standing for an interruption. `stale` are the bytes
        that stand in front of the window when it is decoded. */
    method OnMessage(incoming: bytes, cuts: seq<nat>, endOfFile: bool)
      returns (requests: seq<Message>, fired: seq<(D, Message)>, fault: bool, ghost batch: seq<Message>,
               ghost stale: bytes)
      requires Valid() && !disConnect
      requires inputBuffer.writeIndex + |incoming| <= INT32_MAX
      modifies this`disConnect, this`received, this`decoded, this`strayed, this`readDones
      modifies inputBuffer, inputBuffer.buffer
      ensures received == old(received) + incoming && disConnect == endOfFile
      ensures !fault ==> Valid()
      ensures inputBuffer.buffer == old(inputBuffer.buffer) || fresh(inputBuffer.buffer)
      ensures ArrayBound(inputBuffer.buffer.Length, old(inputBuffer.buffer.Length),
                         |old(inputBuffer.Contents()) + incoming|)
      ensures endOfFile ==>
        !fault && decoded == old(decoded) && readDones == old(readDones) && requests == [] && fired == []
      ensures !endOfFile ==>
        && inputBuffer.Valid()
        && Outcome(old(inputBuffer.Contents()) + incoming, stale, old(inputBuffer.readIndex),
                   fault, batch, inputBuffer.Contents())
      ensures strayed == (old(strayed) ||
                          (!endOfFile && FaultsAt(old(inputBuffer.Contents()) + incoming, |stale|)))
      ensures !fault && !endOfFile ==>
        && decoded == old(decoded) + batch
        && (!strayed ==> decoded == Decode(received).out)
        && (isServer ==> requests == batch && readDones == old(readDones) && fired == [])
        && (!isServer ==> requests == [] && (fired, readDones) == Match(old(readDones), batch))
    {
      hide InStep, BeyondFault, Decode, FaultsAt, Outcome, Buffer.Contents, Encoding, Match, ArrayBound;
      requests, fired, fault, batch, stale := [], [], false, [], [];
      ReadAll(incoming, cuts);
      received := received + incoming;
      if endOfFile {
        ReadEnd(Data([]));
        disConnect := true;
        return;
      }
      ReadEnd(Again);
      ghost var base := inputBuffer.readIndex;
      requests, fired, fault, batch, stale := ParseMsg(old(received), old(inputBuffer.Contents()), incoming);
      OutcomeLater(old(inputBuffer.Contents()) + incoming, stale, base, old(inputBuffer.readIndex),
                   fault, batch, inputBuffer.Contents());
    }

    /** The read that finds the socket closed or empty. */
    method ReadEnd(env: Arrival)
      requires inputBuffer.Valid() && (env == Data([]) || env == Again)
      modifies inputBuffer, inputBuffer.buffer
      ensures inputBuffer.Valid() && inputBuffer.buffer == old(inputBuffer.buffer)
      ensures inputBuffer.readIndex == old(inputBuffer.readIndex)
      ensures inputBuffer.writeIndex == old(inputBuffer.writeIndex)
      ensures inputBuffer.Contents() == old(inputBuffer.Contents())
    {
      var n := inputBuffer.ReadFd(env);
      assert |inputBuffer.Contents()| == inputBuffer.ReadableBytes();
    }

    /** The reads of one read event, up to the one that finds the socket empty or closed. */
    method ReadAll(incoming: bytes, cuts: seq<nat>)
      requires inputBuffer.Valid()
      modifies inputBuffer, inputBuffer.buffer
      ensures inputBuffer.Valid() && (inputBuffer.buffer == old(inputBuffer.buffer) || fresh(inputBuffer.buffer))
      ensures inputBuffer.readIndex <= old(inputBuffer.readIndex)
      ensures inputBuffer.writeIndex <= old(inputBuffer.writeIndex) + |incoming|
      ensures inputBuffer.Contents() == old(inputBuffer.Contents()) + incoming
      ensures ArrayBound(inputBuffer.buffer.Length, old(inputBuffer.buffer.Length), |inputBuffer.Contents()|)
    {
      hide Buffer.Contents;
      var left, k := incoming, 0;
      while left != []
        invariant k <= |cuts| && |left| <= |incoming|
        invariant inputBuffer.Valid() && (inputBuffer.buffer == old(inputBuffer.buffer) || fresh(inputBuffer.buffer))
        invariant inputBuffer.writeIndex <= old(inputBuffer.writeIndex) + |incoming| - |left|
        invariant inputBuffer.readIndex <= old(inputBuffer.readIndex)
        invariant ArrayBound(inputBuffer.buffer.Length, old(inputBuffer.buffer.Length), |inputBuffer.Contents()|)
        invariant inputBuffer.Contents() + left == old(inputBuffer.Contents()) + incoming
        decreases |left|, |cuts| - k
      {
        var bound := inputBuffer.WriteableBytes() + EXTRA_SIZE;
        var limit := if k < |cuts| && cuts[k] < bound then cuts[k] else bound;
        var n;
        if limit == 0 {
          n := inputBuffer.ReadFd(Interrupted);
        } else {
          var size := if limit <= |left| then limit else |left|;
          ghost var before := inputBuffer.Contents();
          n := inputBuffer.ReadFd(Data(left[..size]));
          assert left == left[..size] + left[size..];
          Associative(before, left[..size], left[size..]);
          left := left[size..];
        }
        if k < |cuts| {
          k := k + 1;
        }
      }
    }

    /** Decodes the input buffer; a server hands the batch to its message callback, a client runs and
        forgets the callback registered for each reply's id and drops replies nobody waits for. */
    method ParseMsg(ghost earlier: bytes, ghost pending: bytes, ghost incoming: bytes)
      returns (requests: seq<Message>, fired: seq<(D, Message)>, fault: bool, ghost batch: seq<Message>,
               ghost stale: bytes)
      requires inputBuffer.Valid() && inputBuffer.writeIndex <= INT32_MAX && !disConnect
      requires received == earlier + incoming && inputBuffer.Contents() == pending + incoming
      requires if strayed then BeyondFault(decoded, earlier) else InStep(Received(decoded, pending, false), earlier)
      modifies this`decoded, this`strayed, this`readDones, inputBuffer
      ensures inputBuffer.Valid() && inputBuffer.buffer == old(inputBuffer.buffer)
      ensures stale == old(inputBuffer.buffer[..inputBuffer.readIndex])
      ensures Outcome(pending + incoming, stale, old(inputBuffer.readIndex), fault, batch, inputBuffer.Contents())
      ensures strayed == (old(strayed) || FaultsAt(pending + incoming, |stale|))
      ensures !fault ==> InputInStep() && decoded == old(decoded) + batch
      ensures !fault && !strayed ==> decoded == Decode(received).out
      ensures !fault && isServer ==> requests == batch && readDones == old(readDones) && fired == []
      ensures !fault && !isServer ==> requests == [] && (fired, readDones) == Match(old(readDones), batch)
    {
      hide Decode, DecodeArray, Buffer.Contents, InStep, BeyondFault, FaultsAt, Outcome;
      ghost var window := inputBuffer.Contents();
      stale := inputBuffer.buffer[..inputBuffer.readIndex];
      assert inputBuffer.buffer[..inputBuffer.writeIndex] == stale + window by { StaleAndWindow(inputBuffer); }
      strayed := strayed || FaultsAt(window, |stale|);
      var result;
      result, fault := TinyPBCoder.Decode(inputBuffer);
      requests, fired, batch := [], [], result;
      OutcomeOfDecode(window, stale, fault, inputBuffer.Contents());
      if fault {
        return;
      }
      ghost var before := Received(decoded, pending, false);
      OutcomeStep(before, earlier, incoming, old(strayed), stale, batch, inputBuffer.Contents());
      decoded := decoded + result;
      if isServer {
        requests := result;
      } else {
        fired := RunCallbacks(result);
      }
    }

    /** The loop of a client over a batch of replies. */
    method RunCallbacks(result: seq<Message>) returns (fired: seq<(D, Message)>)
      modifies this`readDones
      ensures (fired, readDones) == Match(old(readDones), result)
    {
      fired := [];
      for i := 0 to |result|
        invariant (fired, readDones) == Match(old(readDones), result[..i])
      {
        var msgId := result[i].msgId;
        MatchAppend(old(readDones), result[..i], result[i]);
        assert result[..i + 1] == result[..i] + [result[i]];
        if msgId in readDones {
          fired := fired + [(readDones[msgId], result[i])];
          readDones := readDones - {msgId};
        }
      }
      assert result[..|result|] == result;
    }
  }
}
