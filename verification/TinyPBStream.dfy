/** Theorems about decoding a stream: it does not matter how the bytes are cut into reads, encoding
    is undone by decoding, noise between frames is skipped, and nothing is invented. */
module TinyPBStream {
  import opened Bytes
  import opened TinyPB

  // ---------------------------------------------------------------------------------------------
  // Appending bytes never changes a decision already taken
  // ---------------------------------------------------------------------------------------------

  lemma {:induction false} FindFrameAppend(b: bytes, c: bytes, i: nat, room: int)
    requires i <= |b|
    ensures var s := FindFrame(b, i, room);
      FindFrame(b + c, i, room) == if s.Incomplete? then FindFrame(b + c, s.at, room) else s
    decreases |b| - i
  {
    var s := FindFrame(b, i, room);
    if i < |b| && !(s.Incomplete? && s.at == i) {
      assert (b + c)[i] == b[i];
      if b[i] != PB_START {
        FindFrameAppend(b, c, i + 1, room);
      } else {
        assert (b + c)[i + 1..i + 5] == b[i + 1..i + 5];
        var len := Int32At(b, i + 1);
        if 0 < len && i + len <= room && b[i + len - 1] != PB_END {
          FindFrameAppend(b, c, i + 1, room);
        }
      }
    }
  }

  /** Position `j` cannot start a frame: no start byte, or a complete candidate without its end marker. */
  predicate Passed(b: bytes, j: nat, room: int)
    requires j < |b|
  {
    b[j] != PB_START ||
    (j + 4 < |b| &&
     var len := Int32At(b, j + 1);
     0 < len && j + len <= room && j + len <= |b| && b[j + len - 1] != PB_END)
  }

  /** The search stops at the first position that is not passed: it skips nothing else, and it does not
      skip that one. */
  lemma {:induction false} FindFrameIsFirst(b: bytes, i: nat, room: int)
    requires i <= |b|
    ensures var s := FindFrame(b, i, room);
      && (forall j :: i <= j < s.at ==> Passed(b, j, room))
      && (s.at < |b| ==> !Passed(b, s.at, room))
      && (s.at == |b| ==> s.Incomplete?)
    decreases |b| - i
  {
    if i < |b| && Passed(b, i, room) {
      FindFrameIsFirst(b, i + 1, room);
    }
  }

  /** A search that ended without a complete frame ends at once when repeated from where it stopped. */
  lemma {:induction false} FindFrameSettled(b: bytes, i: nat, room: int)
    requires i <= |b|
    ensures var s := FindFrame(b, i, room); s.Incomplete? ==> FindFrame(b, s.at, room) == s
  {
    FindFrameAppend(b, [], i, room);
    assert b + [] == b;
  }

  lemma {:induction false} DecodeAppend(b: bytes, c: bytes, i: nat, room: int)
    requires i <= |b|
    ensures var r := DecodeFrom(b, i, room);
      DecodeFrom(b + c, i, room) == if r.fault then r else DecodeFrom(b + c, r.stop, room).After(r.out)
    decreases |b| - i
  {
    hide WellFormed, Parse, FindFrame;
    FindFrameAppend(b, c, i, room);
    var s := FindFrame(b, i, room);
    if s.Delimited? {
      assert (b + c)[s.at..s.at + s.len] == b[s.at..s.at + s.len];
      if WellFormed(b[s.at..s.at + s.len]) {
        DecodeAppend(b, c, s.at + s.len, room);
        var r := DecodeFrom(b, i, room);
        var rest := DecodeFrom(b, s.at + s.len, room);
        assert r == rest.After([Parse(b[s.at..s.at + s.len])]);
      }
    }
  }

  lemma {:induction false} DecodeSettled(b: bytes, i: nat, room: int)
    requires i <= |b|
    ensures var r := DecodeFrom(b, i, room); !r.fault ==> DecodeFrom(b, r.stop, room) == Decoded([], r.stop, false)
    decreases |b| - i
  {
    hide WellFormed, Parse, FindFrame;
    FindFrameSettled(b, i, room);
    var s := FindFrame(b, i, room);
    if s.Delimited? && WellFormed(b[s.at..s.at + s.len]) {
      DecodeSettled(b, s.at + s.len, room);
    }
  }

  // ---------------------------------------------------------------------------------------------
  // Positions are relative, and the index range matters only where it is exceeded
  // ---------------------------------------------------------------------------------------------

  function ShiftSearch(s: Search, n: nat): Search {
    match s
    case Incomplete(at) => Incomplete(at + n)
    case Delimited(at, len) => Delimited(at + n, len)
    case Stray(at) => Stray(at + n)
  }

  lemma {:induction false} FindFrameShift(a: bytes, b: bytes, i: nat, room: int)
    requires i <= |b|
    ensures FindFrame(a + b, |a| + i, |a| + room) == ShiftSearch(FindFrame(b, i, room), |a|)
    decreases |b| - i
  {
    hide FindFrame, Int32At;
    FindFrameStep(b, i, room);
    FindFrameStep(a + b, |a| + i, |a| + room);
    if i < |b| {
      assert (a + b)[|a| + i] == b[i];
      if i + 4 < |b| {
        Int32Shift(a, b, i + 1);
        var len := Int32At(b, i + 1);
        assert 0 < len && i + len <= |b| ==> (a + b)[|a| + i + len - 1] == b[i + len - 1];
      }
      FindFrameShift(a, b, i + 1, room);
    }
  }

  lemma {:induction false} DecodeShift(a: bytes, b: bytes, i: nat, room: int)
    requires i <= |b|
    ensures DecodeFrom(a + b, |a| + i, |a| + room) == DecodeFrom(b, i, room).Plus(|a|)
    decreases |b| - i
  {
    hide WellFormed, Parse, FindFrame;
    FindFrameShift(a, b, i, room);
    var s := FindFrame(b, i, room);
    if s.Delimited? {
      assert (a + b)[|a| + s.at..|a| + s.at + s.len] == b[s.at..s.at + s.len];
      DecodeShift(a, b, s.at + s.len, room);
    }
  }

  /** A larger index range changes nothing but a candidate that overflowed the smaller one. */
  lemma {:induction false} FindFrameRoom(b: bytes, i: nat, small: int, large: int)
    requires i <= |b| && small <= large
    ensures !FindFrame(b, i, small).Stray? || |b| + INT32_MAX <= small
      ==> FindFrame(b, i, small) == FindFrame(b, i, large)
    decreases |b| - i
  {
    if i < |b| {
      FindFrameRoom(b, i + 1, small, large);
    }
  }

  lemma {:induction false} DecodeRoom(b: bytes, i: nat, small: int, large: int)
    requires i <= |b| && small <= large
    ensures !DecodeFrom(b, i, small).fault || |b| + INT32_MAX <= small
      ==> DecodeFrom(b, i, small) == DecodeFrom(b, i, large)
    decreases |b| - i
  {
    hide WellFormed, Parse, FindFrame;
    FindFrameRoom(b, i, small, large);
    var s := FindFrame(b, i, small);
    if s.Delimited? {
      DecodeRoom(b, s.at + s.len, small, large);
    }
  }

  /** What a real decode call yields, with indices that start at `base`, is the ideal result unless it
      hits a fault. */
  lemma DecodeWithinRange(b: bytes, base: nat)
    requires !DecodeFrom(b, 0, INT32_MAX - base).fault
    ensures DecodeFrom(b, 0, INT32_MAX - base) == Decode(b)
  {
    DecodeRoom(b, 0, INT32_MAX - base, Unbounded(b));
  }

  /** Whether decoding a window that starts at index `base` leaves what the window determines: a length
      that is not positive, an end beyond the index range, or an ill-formed frame. */
  predicate FaultsAt(b: bytes, base: nat) { DecodeFrom(b, 0, INT32_MAX - base).fault }

  /** A window further back in its array is no better off. */
  lemma FaultsAtLater(b: bytes, base: nat, later: nat)
    requires base <= later && FaultsAt(b, base)
    ensures FaultsAt(b, later)
  {
    hide DecodeFrom;
    DecodeRoom(b, 0, INT32_MAX - later, INT32_MAX - base);
  }

  // ---------------------------------------------------------------------------------------------
  // What a decode call makes of the array, with the bytes `pre` in front of the window
  // ---------------------------------------------------------------------------------------------

  lemma {:induction false} FindInArrayAgrees(pre: bytes, b: bytes, i: nat)
    requires i <= |b|
    ensures var s := FindFrame(b, i, INT32_MAX - |pre|);
      (s.Stray? && BadLength(b, s.at)) || FindInArray(pre + b, |pre| + i) == ShiftSearch(s, |pre|)
    decreases |b| - i
  {
    hide FindFrame, FindInArray, Int32At;
    var a, j, room := pre + b, |pre| + i, INT32_MAX - |pre|;
    FindFrameStep(b, i, room);
    FindInArrayStep(a, j);
    if i < |b| {
      assert a[j] == b[i];
      if i + 4 < |b| {
        Int32Shift(pre, b, i + 1);
        var len := Int32At(b, i + 1);
        assert 0 < len && i + len <= |b| ==> a[j + len - 1] == b[i + len - 1];
      }
      FindInArrayAgrees(pre, b, i + 1);
    }
  }

  lemma Int32Shift(pre: bytes, b: bytes, i: nat)
    requires i + 4 <= |b|
    ensures Int32At(pre + b, |pre| + i) == Int32At(b, i)
  {
    assert (pre + b)[|pre| + i..|pre| + i + 4] == b[i..i + 4];
  }

  /** The search from `i` decides at `i` or goes on at `i + 1`. */
  lemma FindFrameStep(b: bytes, i: nat, room: int)
    requires i <= |b|
    ensures i == |b| || (b[i] == PB_START && |b| <= i + 4) ==> FindFrame(b, i, room) == Incomplete(i)
    ensures i < |b| && b[i] != PB_START ==> FindFrame(b, i, room) == FindFrame(b, i + 1, room)
    ensures i + 4 < |b| && b[i] == PB_START ==>
      var len := Int32At(b, i + 1);
      FindFrame(b, i, room) ==
      if len <= 0 || i + len > room then Stray(i)
      else if |b| <= i + len - 1 then Incomplete(i)
      else if b[i + len - 1] == PB_END then Delimited(i, len)
      else FindFrame(b, i + 1, room)
  {
  }

  lemma FindInArrayStep(a: bytes, i: nat)
    requires i <= |a|
    ensures i == |a| || (a[i] == PB_START && |a| <= i + 4) ==> FindInArray(a, i) == Incomplete(i)
    ensures i < |a| && a[i] != PB_START ==> FindInArray(a, i) == FindInArray(a, i + 1)
    ensures i + 4 < |a| && a[i] == PB_START ==>
      var end := i + Int32At(a, i + 1) - 1;
      FindInArray(a, i) ==
      if end >= INT32_MAX || end < 0 then Stray(i)
      else if |a| <= end then Incomplete(i)
      else if a[end] == PB_END then Delimited(i, Int32At(a, i + 1))
      else FindInArray(a, i + 1)
  {
  }

  lemma FieldsInArray(pre: bytes, b: bytes, at: nat, len: nat)
    requires at + len <= |b|
    ensures (pre + b)[|pre| + at..][..len] == b[at..at + len]
    ensures (pre + b)[|pre| + at..|pre| + at + len] == b[at..at + len]
    ensures FieldsFit((pre + b)[|pre| + at..], len) <==> WellFormed(b[at..at + len])
  {
    hide WellFormed, FieldsFit;
    var a := pre + b;
    assert a[|pre| + at..][..len] == b[at..at + len];
    WellFormedPrefix(a[|pre| + at..], len);
  }

  /** A decode call does what the window determines, unless it meets a length that is not positive: the
      bytes in front of the window then decide whether it faults there or goes on. Up to that candidate
      the messages are the same, so a call that faults faults on the window's account. */
  lemma {:induction false} DecodeArrayAgrees(pre: bytes, b: bytes, i: nat)
    requires i <= |b|
    ensures var r, c := DecodeFrom(b, i, INT32_MAX - |pre|), DecodeArray(pre + b, |pre| + i);
      && (!r.fault || !BadLength(b, r.stop) ==> c == r.Plus(|pre|))
      && (c.fault ==> r.fault)
      && r.out <= c.out
    decreases |b| - i
  {
    hide WellFormed, Parse, FindFrame, FindInArray, FieldsFit, Int32At;
    var room := INT32_MAX - |pre|;
    var s := FindFrame(b, i, room);
    StopExplained(b, i, room);
    FindInArrayAgrees(pre, b, i);
    if s.Delimited? {
      DelimitedIsMarked(b, i, room);
      FieldsInArray(pre, b, s.at, s.len);
      if WellFormed(b[s.at..s.at + s.len]) {
        DecodeArrayAgrees(pre, b, s.at + s.len);
      }
    }
  }

  /** A start marker whose length is not positive. */
  predicate BadLength(b: bytes, j: nat) { j + 4 < |b| && Int32At(b, j + 1) <= 0 }

  /** A length that is not positive stops the window's decode in any index range. */
  lemma {:induction false} BadLengthInAnyRange(b: bytes, i: nat, small: int, large: int)
    requires i <= |b| && small <= large
    ensures var r := DecodeFrom(b, i, small); r.fault && BadLength(b, r.stop) ==> DecodeFrom(b, i, large) == r
    decreases |b| - i
  {
    hide WellFormed, Parse, FindFrame, Int32At;
    FindFrameBadLength(b, i, small, large);
    FindFrameRoom(b, i, small, large);
    var s := FindFrame(b, i, small);
    if s.Delimited? {
      DelimitedIsMarked(b, i, small);
      BadLengthInAnyRange(b, s.at + s.len, small, large);
    }
  }

  lemma {:induction false} FindFrameBadLength(b: bytes, i: nat, small: int, large: int)
    requires i <= |b| && small <= large
    ensures var s := FindFrame(b, i, small); s.Stray? && BadLength(b, s.at) ==> FindFrame(b, i, large) == s
    decreases |b| - i
  {
    hide FindFrame, Int32At;
    FindFrameStep(b, i, small);
    FindFrameStep(b, i, large);
    if i < |b| {
      FindFrameBadLength(b, i + 1, small, large);
    }
  }

  /** A call that goes on where its window does not: the window's own decode is stuck there for good, and the
      call's messages begin with those of the window. */
  lemma GoesOnPastBadLength(pre: bytes, b: bytes)
    requires FaultsAt(b, |pre|) && !DecodeArray(pre + b, |pre|).fault
    ensures Decode(b).fault && Decode(b).out <= DecodeArray(pre + b, |pre|).out
  {
    hide DecodeFrom, DecodeArray, Int32At;
    DecodeArrayAgrees(pre, b, 0);
    BadLengthInAnyRange(b, 0, INT32_MAX - |pre|, Unbounded(b));
  }

  /** What a search finds at the position where it stops. */
  lemma {:induction false} StopExplained(b: bytes, i: nat, room: int)
    requires i <= |b|
    ensures var s := FindFrame(b, i, room);
      && (s.at < |b| ==> b[s.at] == PB_START)
      && (s.Incomplete? ==> Unfinished(b, s.at))
      && (s.Incomplete? && s.at + 4 < |b| ==> s.at + Int32At(b, s.at + 1) <= room)
      && (s.Stray? ==> s.at + 4 < |b| && (Int32At(b, s.at + 1) <= 0 || s.at + Int32At(b, s.at + 1) > room))
      && (s.Delimited? ==> s.at + s.len <= room)
    decreases |b| - i
  {
    hide FindFrame, Int32At;
    FindFrameStep(b, i, room);
    if i < |b| {
      StopExplained(b, i + 1, room);
    }
  }

  /** Decoding `a + b` is decoding `a` and then its leftover followed by `b`. */
  lemma DecodeInTwo(a: bytes, b: bytes)
    ensures var r := Decode(a);
      Decode(a + b) == if r.fault then r else Decode(a[r.stop..] + b).Plus(r.stop).After(r.out)
  {
    hide DecodeFrom;
    var r := Decode(a);
    var room := Unbounded(a + b);
    DecodeRoom(a, 0, Unbounded(a), room);
    DecodeAppend(a, b, 0, room);
    if !r.fault {
      var x, y := a[..r.stop], a[r.stop..] + b;
      assert a + b == x + y;
      DecodeShift(x, y, 0, room - |x|);
      DecodeRoom(y, 0, Unbounded(y), room - |x|);
    }
  }

  lemma Associative(a: bytes, b: bytes, c: bytes)
    ensures a + b + c == a + (b + c)
  {
  }

  // ---------------------------------------------------------------------------------------------
  // Incremental decoding equals batch decoding
  // ---------------------------------------------------------------------------------------------

  /** What a receiver has got out of its input so far, the bytes it still holds, and whether it met a fault. */
  datatype Received = Received(out: seq<Message>, pending: bytes, fault: bool)

  /** One read of `chunk` bytes followed by one decode call. */
  function Feed(s: Received, chunk: bytes): Received {
    if s.fault then s
    else
      var b := s.pending + chunk;
      var r := Decode(b);
      Received(s.out + r.out, b[r.stop..], r.fault)
  }

  function FeedAll(s: Received, chunks: seq<bytes>): Received
    decreases |chunks|
  {
    if chunks == [] then s else FeedAll(Feed(s, chunks[0]), chunks[1..])
  }

  function Concat(chunks: seq<bytes>): bytes {
    if chunks == [] then [] else chunks[0] + Concat(chunks[1..])
  }

  const NOTHING: Received := Received([], [], false)

  /** The state a receiver must be in after the bytes of `stream`, whatever the reads were. */
  ghost predicate InStep(s: Received, stream: bytes) {
    var r := Decode(stream);
    s.out == r.out && s.fault == r.fault && (!s.fault ==> s.pending == stream[r.stop..])
  }

  /** A receiver that goes on past a fault of its stream's decode has that decode's messages and maybe more. */
  ghost predicate BeyondFault(out: seq<Message>, stream: bytes) {
    var r := Decode(stream);
    r.fault && r.out <= out
  }

  lemma BeyondFaultStays(out: seq<Message>, stream: bytes, more: seq<Message>, chunk: bytes)
    requires BeyondFault(out, stream)
    ensures BeyondFault(out + more, stream + chunk)
  {
    hide DecodeFrom;
    DecodeInTwo(stream, chunk);
  }

  lemma BeyondFaultBegins(s: Received, stream: bytes, batch: seq<Message>, chunk: bytes)
    requires InStep(s, stream) && !s.fault && BeyondFault(batch, s.pending + chunk)
    ensures BeyondFault(s.out + batch, stream + chunk)
  {
    hide DecodeFrom;
    DecodeInTwo(stream, chunk);
    var d := Decode(s.pending + chunk);
    assert batch == d.out + batch[|d.out|..];
    assert s.out + batch == s.out + d.out + batch[|d.out|..];
  }

  lemma {:induction false} FeedKeepsStep(s: Received, stream: bytes, chunk: bytes)
    requires InStep(s, stream)
    ensures InStep(Feed(s, chunk), stream + chunk)
  {
    hide DecodeFrom;
    DecodeInTwo(stream, chunk);
    var r := Decode(stream);
    if !s.fault {
      var b := s.pending + chunk;
      assert stream + chunk == stream[..r.stop] + b;
      assert (stream[..r.stop] + b)[r.stop + Decode(b).stop..] == b[Decode(b).stop..];
    }
  }

  /** Any stream, garbage and faults included, and any way of cutting it: the messages delivered, the
      bytes held back and whether a fault occurred are those of one decode of the whole stream. */
  lemma {:induction false} IncrementalIsBatch(chunks: seq<bytes>)
    ensures InStep(FeedAll(NOTHING, chunks), Concat(chunks))
  {
    FeedAllInStep(NOTHING, [], chunks);
    assert [] + Concat(chunks) == Concat(chunks);
  }

  lemma {:induction false} FeedAllInStep(s: Received, stream: bytes, chunks: seq<bytes>)
    requires InStep(s, stream)
    ensures InStep(FeedAll(s, chunks), stream + Concat(chunks))
    decreases |chunks|
  {
    hide Decode, Feed;
    if chunks == [] {
      assert stream + Concat(chunks) == stream;
    } else {
      FeedKeepsStep(s, stream, chunks[0]);
      FeedAllInStep(Feed(s, chunks[0]), stream + chunks[0], chunks[1..]);
      assert stream + chunks[0] + Concat(chunks[1..]) == stream + Concat(chunks);
    }
  }

  // ---------------------------------------------------------------------------------------------
  // Round trip, with noise between the frames
  // ---------------------------------------------------------------------------------------------

  predicate Noise(g: bytes) { PB_START !in g }

  /** `gaps[0]`, then each message's frame followed by the next gap. */
  function Weave(gaps: seq<bytes>, ms: seq<Message>): bytes
    requires |gaps| == |ms| + 1
    decreases |ms|
  {
    if ms == [] then gaps[0] else gaps[0] + Frame(ms[0]) + Weave(gaps[1..], ms[1..])
  }

  lemma {:induction false} SkipNoise(b: bytes, i: nat, j: nat, room: int)
    requires i <= j <= |b| && Noise(b[i..j])
    ensures FindFrame(b, i, room) == FindFrame(b, j, room)
    decreases j - i
  {
    if i < j {
      assert b[i] == b[i..j][0];
      assert b[i + 1..j] == b[i..j][1..];
      SkipNoise(b, i + 1, j, room);
    }
  }

  /** Noise in front of a stream changes neither the messages nor the leftover. */
  lemma {:induction false} NoiseInFront(g: bytes, b: bytes, room: int)
    requires Noise(g)
    ensures DecodeFrom(g + b, 0, |g| + room) == DecodeFrom(b, 0, room).Plus(|g|)
  {
    hide WellFormed, Parse, FindFrame;
    assert (g + b)[0..|g|] == g;
    SkipNoise(g + b, 0, |g|, |g| + room);
    DecodeShift(g, b, 0, room);
    FindFrameShift(g, b, 0, room);
  }

  /** The frame at the front of a stream is taken off whole, whatever its payload contains, if and only
      if its end is within the index range. */
  lemma {:induction false} FrameInFront(m: Message, b: bytes, room: int)
    requires Fits(m)
    ensures DecodeFrom(Frame(m) + b, 0, room) ==
      if FrameSize(m) <= room then DecodeFrom(b, 0, room - FrameSize(m)).Plus(FrameSize(m)).After([m])
      else Decoded([], 0, true)
  {
    hide Frame, FindFrame, WellFormed, Parse;
    var f := Frame(m);
    FrameIsFound(m, b, room);
    ParseOfFrame(m);
    assert (f + b)[0..|f|] == f;
    DecodeShift(f, b, 0, room - |f|);
  }

  lemma FrameIsFound(m: Message, b: bytes, room: int)
    requires Fits(m)
    ensures FindFrame(Frame(m) + b, 0, room) ==
      if FrameSize(m) <= room then Delimited(0, FrameSize(m)) else Stray(0)
  {
    hide Frame;
    var f := Frame(m);
    var s := f + b;
    FrameFields(m);
    Int32RoundTrip(|f|);
    assert s[1..5] == f[1..5] && s[0] == f[0] && s[|f| - 1] == f[|f| - 1];
  }

  /** A frame that has not arrived completely is kept byte for byte, unless its length is there and
      points beyond the index range. */
  lemma {:induction false} PartOfFrameIsKept(m: Message, n: nat, room: int)
    requires Fits(m) && n < FrameSize(m)
    ensures DecodeFrom(Frame(m)[..n], 0, room) == Decoded([], 0, 5 <= n && FrameSize(m) > room)
  {
    var f, p := Frame(m), Frame(m)[..n];
    FrameFields(m);
    if 5 <= n {
      assert p[1..5] == f[1..5];
      Int32RoundTrip(|f|);
    }
    assert FindFrame(p, 0, room) == if 5 <= n && |f| > room then Stray(0) else Incomplete(0);
  }

  /** Decoding frames with noise around them, followed by a part of one more frame, yields exactly the
      messages in order and keeps exactly that part. It faults if and only if that part holds a length
      that points beyond the index range. */
  lemma {:induction false} RoundTripWithNoise(gaps: seq<bytes>, ms: seq<Message>, next: Message, n: nat, room: int)
    requires |gaps| == |ms| + 1 && forall i :: 0 <= i < |gaps| ==> Noise(gaps[i])
    requires forall i :: 0 <= i < |ms| ==> Fits(ms[i])
    requires Fits(next) && n < FrameSize(next) && |Weave(gaps, ms)| <= room
    ensures var s := Weave(gaps, ms);
      DecodeFrom(s + Frame(next)[..n], 0, room) == Decoded(ms, |s|, 5 <= n && |s| + FrameSize(next) > room)
    decreases |ms|
  {
    hide DecodeFrom, Frame, Noise;
    var part := Frame(next)[..n];
    if ms == [] {
      NoiseInFront(gaps[0], part, room - |gaps[0]|);
      PartOfFrameIsKept(next, n, room - |gaps[0]|);
    } else {
      var rest := Weave(gaps[1..], ms[1..]);
      var k := room - |gaps[0]|;
      assert |Weave(gaps, ms)| == |gaps[0]| + FrameSize(ms[0]) + |rest|;
      RoundTripWithNoise(gaps[1..], ms[1..], next, n, k - FrameSize(ms[0]));
      FrameInFront(ms[0], rest + part, k);
      NoiseInFront(gaps[0], Frame(ms[0]) + (rest + part), k);
      assert Weave(gaps, ms) + part == gaps[0] + (Frame(ms[0]) + (rest + part));
      assert [ms[0]] + ms[1..] == ms;
    }
  }

  function NoGaps(n: nat): (gaps: seq<bytes>)
    ensures |gaps| == n
  {
    seq(n, _ => [])
  }

  lemma {:induction false} EncodingIsWeave(ms: seq<Message>)
    ensures Encoding(ms) == Weave(NoGaps(|ms| + 1), WithIds(ms))
  {
    hide Frame;
    if ms != [] {
      EncodingIsWeave(ms[1..]);
      assert NoGaps(|ms| + 1)[1..] == NoGaps(|ms|);
      assert WithIds(ms)[1..] == WithIds(ms[1..]);
    }
  }

  /** Round trip: what `encode` writes for a batch, followed by any proper prefix of a further frame. */
  lemma {:induction false} RoundTrip(ms: seq<Message>, next: Message, n: nat, room: int)
    requires forall i :: 0 <= i < |ms| ==> Fits(WithId(ms[i]))
    requires Fits(next) && n < FrameSize(next) && |Encoding(ms)| <= room
    ensures DecodeFrom(Encoding(ms) + Frame(next)[..n], 0, room)
      == Decoded(WithIds(ms), |Encoding(ms)|, 5 <= n && |Encoding(ms)| + FrameSize(next) > room)
  {
    hide DecodeFrom, Frame;
    EncodingIsWeave(ms);
    RoundTripWithNoise(NoGaps(|ms| + 1), WithIds(ms), next, n, room);
  }

  lemma {:induction false} EncodingAppend(ms: seq<Message>, ns: seq<Message>)
    ensures Encoding(ms + ns) == Encoding(ms) + Encoding(ns)
  {
    hide Frame, WithId;
    if ms == [] {
      assert ms + ns == ns;
    } else {
      EncodingAppend(ms[1..], ns);
      assert (ms + ns)[0] == ms[0] && (ms + ns)[1..] == ms[1..] + ns;
      Associative(Frame(WithId(ms[0])), Encoding(ms[1..]), Encoding(ns));
    }
  }

  /** All of them fit, and all carry the id they travel with. */
  predicate Sendable(ms: seq<Message>) {
    forall i :: 0 <= i < |ms| ==> Fits(ms[i]) && ms[i].msgId != []
  }

  predicate FramesUpTo(ms: seq<Message>, max: nat) { forall m :: m in ms ==> FrameSize(m) <= max }

  /** How many of the frames are complete in the first `n` bytes. */
  function Complete(ms: seq<Message>, n: nat): (k: nat)
    ensures k <= |ms|
    decreases |ms|
  {
    if ms == [] || n < FrameSize(ms[0]) then 0 else 1 + Complete(ms[1..], n - FrameSize(ms[0]))
  }

  /** Of a stream of encoded messages, any prefix decodes to the messages that are complete in it, and a
      part of the next frame is held back. The decoder faults if and only if the length of that next frame
      has arrived and points beyond the index range. */
  lemma {:induction false} PrefixOfEncoding(ms: seq<Message>, n: nat, room: int)
    requires n <= |Encoding(ms)| && n <= room && Sendable(ms)
    ensures var r := DecodeFrom(Encoding(ms)[..n], 0, room);
      var k := Complete(ms, n);
      && r.out == ms[..k] && r.stop == |Encoding(ms[..k])|
      && n - r.stop < (if k < |ms| then FrameSize(ms[k]) else 1)
      && (r.fault <==> k < |ms| && 5 <= n - r.stop && r.stop + FrameSize(ms[k]) > room)
    decreases |ms|
  {
    hide Frame, DecodeFrom;
    var s := Encoding(ms)[..n];
    if ms == [] {
      assert s == [];
      DecodeNothing(room);
    } else if n < FrameSize(ms[0]) {
      assert s == Frame(ms[0])[..n];
      PartOfFrameIsKept(ms[0], n, room);
    } else {
      var j := n - FrameSize(ms[0]);
      var rest := Encoding(ms[1..])[..j];
      assert s == Frame(ms[0]) + rest;
      FrameInFront(ms[0], rest, room);
      PrefixOfEncoding(ms[1..], j, room - FrameSize(ms[0]));
      var k := Complete(ms, n);
      assert ms[..k] == [ms[0]] + ms[1..][..k - 1];
      EncodingAppend([ms[0]], ms[1..][..k - 1]);
      assert Encoding([ms[0]]) == Frame(ms[0]) + Encoding([]);
    }
  }

  /** Such a stream holds no length that is not positive where the decoder stops, so that a decode call does
      what the window determines, whatever stands in front of it. */
  lemma {:induction false} NoBadLength(ms: seq<Message>, n: nat)
    requires n <= |Encoding(ms)| && Sendable(ms)
    ensures var s := Encoding(ms)[..n];
      var at := |Encoding(ms[..Complete(ms, n)])|;
      at <= n && !BadLength(s, at)
    decreases |ms|
  {
    hide Frame, Int32At;
    var s := Encoding(ms)[..n];
    if ms != [] {
      var f := Frame(ms[0]);
      if n < |f| {
        assert s == f[..n];
        if 5 <= n {
          LengthOfFrame(ms[0], n);
        }
      } else {
        var j, k := n - |f|, Complete(ms, n);
        var rest := Encoding(ms[1..])[..j];
        assert s == f + rest;
        NoBadLength(ms[1..], j);
        assert ms[..k] == [ms[0]] + ms[1..][..k - 1];
        EncodingAppend([ms[0]], ms[1..][..k - 1]);
        assert Encoding([ms[0]]) == f + Encoding([]);
        var at := |Encoding(ms[1..][..k - 1])|;
        if at + 4 < |rest| {
          Int32Shift(f, rest, at + 1);
        }
      }
    }
  }

  /** What a decode call makes of a window with a prefix of an encoding in it, whatever stands before the window. */
  lemma PrefixInArray(ms: seq<Message>, n: nat, stale: bytes)
    requires n <= |Encoding(ms)| && |stale| + n <= INT32_MAX && Sendable(ms)
    ensures var r := DecodeArray(stale + Encoding(ms)[..n], |stale|);
      var k := Complete(ms, n);
      var at := |Encoding(ms[..k])|;
      && r.out == ms[..k] && r.stop == |stale| + at && at <= n
      && n - at < (if k < |ms| then FrameSize(ms[k]) else 1)
      && (r.fault <==> k < |ms| && 5 <= n - at && |stale| + at + FrameSize(ms[k]) > INT32_MAX)
  {
    hide DecodeFrom, DecodeArray, Encoding, Complete;
    PrefixOfEncoding(ms, n, INT32_MAX - |stale|);
    NoBadLength(ms, n);
    DecodeArrayAgrees(stale, Encoding(ms)[..n], 0);
  }

  lemma LengthOfFrame(m: Message, n: nat)
    requires Fits(m) && 5 <= n <= FrameSize(m)
    ensures Int32At(Frame(m)[..n], 1) == FrameSize(m)
  {
    hide Frame;
    FrameFields(m);
    Int32RoundTrip(FrameSize(m));
    assert Frame(m)[..n][1..5] == Frame(m)[1..5];
  }

  lemma DecodeNothing(room: int)
    ensures DecodeFrom([], 0, room) == Decoded([], 0, false)
  {
  }

  lemma RestOfEncoding(ms: seq<Message>, k: nat, stream: bytes, pending: bytes, chunk: bytes)
    requires k <= |ms| && |Encoding(ms[..k])| <= |stream| && pending == stream[|Encoding(ms[..k])|..]
    requires stream + chunk <= Encoding(ms)
    ensures pending + chunk <= Encoding(ms[k..])
  {
    hide Encoding;
    var stop := |Encoding(ms[..k])|;
    assert ms == ms[..k] + ms[k..];
    EncodingAppend(ms[..k], ms[k..]);
    assert (stream + chunk)[stop..] == pending + chunk;
    assert Encoding(ms)[stop..] == Encoding(ms[k..]);
    assert (stream + chunk)[stop..] <= Encoding(ms)[stop..];
  }

  /** A receiver fed the bytes of encoded messages, in whatever pieces, gets a prefix of the messages. One
      more read, with its window at array index `base`, faults if and only if the length of the frame in
      progress has arrived and points beyond the index range. */
  lemma {:induction false} HonestInput(ms: seq<Message>, s: Received, stream: bytes, chunk: bytes, base: nat)
    requires Sendable(ms) && stream + chunk <= Encoding(ms)
    requires InStep(s, stream) && base + |s.pending| + |chunk| <= INT32_MAX
    ensures !s.fault
    ensures var r := Decode(stream + chunk);
      var part := |stream + chunk| - r.stop;
      && !r.fault && r.out <= ms
      && (FaultsAt(s.pending + chunk, base) <==>
           && |r.out| < |ms| && 5 <= part
           && base + |s.pending + chunk| - part + FrameSize(ms[|r.out|]) > INT32_MAX)
  {
    hide DecodeFrom, Frame, Encoding, Complete;
    assert stream == Encoding(ms)[..|stream|];
    PrefixOfEncoding(ms, |stream|, Unbounded(stream));
    var k := |s.out|;
    var b, rest := s.pending + chunk, ms[k..];
    assert s.out == ms[..k] && |stream| == Decode(stream).stop + |s.pending|;
    RestOfEncoding(ms, k, stream, s.pending, chunk);
    assert b == Encoding(rest)[..|b|];
    PrefixOfEncoding(rest, |b|, Unbounded(b));
    PrefixOfEncoding(rest, |b|, INT32_MAX - base);
    DecodeInTwo(stream, chunk);
    var q, j := Decode(b), Complete(rest, |b|);
    assert !q.fault && q.out == rest[..j];
    assert ms[..k] + rest[..j] == ms[..k + j];
  }

  // ---------------------------------------------------------------------------------------------
  // Nothing is invented
  // ---------------------------------------------------------------------------------------------

  lemma {:induction false} WeaveOne(gap: bytes, m: Message, gaps: seq<bytes>, ms: seq<Message>)
    requires |gaps| == |ms| + 1
    ensures Weave([gap] + gaps, [m] + ms) == gap + Frame(m) + Weave(gaps, ms)
  {
    assert ([gap] + gaps)[1..] == gaps && ([m] + ms)[1..] == ms;
  }

  lemma {:induction false} DelimitedIsMarked(b: bytes, i: nat, room: int)
    requires i <= |b|
    ensures var s := FindFrame(b, i, room);
      s.Delimited? ==>
        && 6 <= s.len
        && b[s.at] == PB_START && b[s.at + s.len - 1] == PB_END && Int32At(b, s.at + 1) == s.len
    decreases |b| - i
  {
    hide FindFrame;
    FindFrameStep(b, i, room);
    if i < |b| {
      DelimitedIsMarked(b, i + 1, room);
      if i + 4 < |b| && 0 < Int32At(b, i + 1) < 6 {
        SmallLengths(b[i + 1..i + 5]);
      }
    }
  }

  lemma SmallLengths(x: bytes)
    requires |x| == 4 && 0 < BytesInt32(x) < 6
    ensures x[0] == x[1] == x[2] == 0 && x[3] as int == BytesInt32(x)
  {
  }

  lemma DelimitedFrame(b: bytes, i: nat, room: int)
    requires i <= |b| && FindFrame(b, i, room).Delimited?
    ensures var s := FindFrame(b, i, room);
      var f := b[s.at..s.at + s.len];
      WellFormed(f) ==> Frame(Parse(f)) == f
  {
    hide Frame, FindFrame, Parse;
    var s := FindFrame(b, i, room);
    var f := b[s.at..s.at + s.len];
    DelimitedIsMarked(b, i, room);
    if WellFormed(f) {
      SliceOfSlice(b, s.at, s.at + s.len, 1, 5);
      FrameOfParse(f);
    }
  }

  /** The bytes a decode consumes are the frames of the messages it returns, in order, with the skipped
      bytes between them: every message was on the wire, and no byte went into two. */
  lemma {:induction false} ConsumedBytesAreFrames(b: bytes, i: nat, room: int) returns (gaps: seq<bytes>)
    requires i <= |b|
    ensures var r := DecodeFrom(b, i, room);
      |gaps| == |r.out| + 1 && b[i..r.stop] == Weave(gaps, r.out)
    decreases |b| - i
  {
    hide FindFrame, WellFormed, Parse, Frame;
    var s := FindFrame(b, i, room);
    var r := DecodeFrom(b, i, room);
    if s.Delimited? && WellFormed(b[s.at..s.at + s.len]) {
      var f := b[s.at..s.at + s.len];
      DelimitedFrame(b, i, room);
      var more := ConsumedBytesAreFrames(b, s.at + s.len, room);
      gaps := [b[i..s.at]] + more;
      var rest := DecodeFrom(b, s.at + s.len, room);
      WeaveOne(b[i..s.at], Parse(f), more, rest.out);
      assert b[i..r.stop] == b[i..s.at] + f + b[s.at + s.len..r.stop];
    } else {
      gaps := [b[i..s.at]];
    }
  }

  /** What stops a decode at `j`: a marker and a length that is not positive, that points beyond the index
      range, or that delimits a frame with inner lengths that do not fit. */
  predicate Faulty(b: bytes, j: nat, room: int) {
    && j + 4 < |b| && b[j] == PB_START
    && var len := Int32At(b, j + 1);
       || len <= 0 || j + len > room
       || (j + len <= |b| && b[j + len - 1] == PB_END && !WellFormed(b[j..j + len]))
  }

  /** What can still become a frame at `j`: nothing yet, or a marker whose frame has not arrived completely. */
  predicate Unfinished(b: bytes, j: nat)
    requires j <= |b|
  {
    j == |b| || (b[j] == PB_START && (|b| <= j + 4 || |b| < j + Int32At(b, j + 1)))
  }

  /** A decode faults exactly if the candidate at which it stops is faulty; otherwise it stops at a
      position where a frame can still arrive. */
  lemma {:induction false} FaultIsExplained(b: bytes, i: nat, room: int)
    requires i <= |b|
    ensures var r := DecodeFrom(b, i, room);
      && (r.fault <==> Faulty(b, r.stop, room))
      && (!r.fault ==> Unfinished(b, r.stop))
    decreases |b| - i
  {
    hide FindFrame, WellFormed, Parse;
    var s := FindFrame(b, i, room);
    StopExplained(b, i, room);
    DelimitedIsMarked(b, i, room);
    if s.Delimited? && WellFormed(b[s.at..s.at + s.len]) {
      FaultIsExplained(b, s.at + s.len, room);
    }
  }

  /** The shortest delimited frame: its six bytes are two markers and a length, and the decode of a stream
      that starts with it faults at once. */
  lemma ShortFrameFaults(rest: bytes, room: int)
    requires 6 <= room
    ensures var f: bytes := [0x02, 0, 0, 0, 6, 0x03];
      FindFrame(f + rest, 0, room) == Delimited(0, 6) && !WellFormed(f)
      && DecodeFrom(f + rest, 0, room) == Decoded([], 0, true)
  {
    var f: bytes := [0x02, 0, 0, 0, 6, 0x03];
    var b := f + rest;
    assert b[0..6] == f && b[1..5] == [0, 0, 0, 6];
  }

  /** What stops a decode call at index `j` of its array: a marker and an end index outside `int` or in front
      of the array, or a frame delimited by an end marker, stale or not, whose fields do not fit. */
  predicate FaultyInArray(a: bytes, j: nat) {
    && j + 4 < |a| && a[j] == PB_START
    && var len := Int32At(a, j + 1);
       || j + len > INT32_MAX || j + len - 1 < 0
       || (j + len - 1 < |a| && a[j + len - 1] == PB_END && !FieldsFit(a[j..], len))
  }

  predicate UnfinishedInArray(a: bytes, j: nat)
    requires j <= |a|
  {
    j == |a| || (a[j] == PB_START && (|a| <= j + 4 || |a| < j + Int32At(a, j + 1)))
  }

  /** Index `j` is not the start of a frame: no start byte, or a candidate whose end index is in the array and holds
      no end marker. */
  predicate PassedInArray(a: bytes, j: nat)
    requires j < |a|
  {
    a[j] != PB_START ||
    (j + 4 < |a| &&
     var end := j + Int32At(a, j + 1) - 1;
     0 <= end < |a| && end < INT32_MAX && a[end] != PB_END)
  }

  /** The search in the array stops at the first index that is not passed, whatever the lengths on its way. */
  lemma {:induction false} FindInArrayIsFirst(a: bytes, i: nat)
    requires i <= |a|
    ensures var s := FindInArray(a, i);
      && (forall j :: i <= j < s.at ==> PassedInArray(a, j))
      && (s.at < |a| ==> !PassedInArray(a, s.at))
      && (s.at == |a| ==> s.Incomplete?)
    decreases |a| - i
  {
    hide FindInArray, Int32At;
    FindInArrayStep(a, i);
    if i < |a| && PassedInArray(a, i) {
      FindInArrayIsFirst(a, i + 1);
    }
  }

  lemma {:induction false} StopInArray(a: bytes, i: nat)
    requires i <= |a|
    ensures var s := FindInArray(a, i);
      && (s.Incomplete? ==> UnfinishedInArray(a, s.at))
      && (s.Incomplete? && s.at + 4 < |a| ==> s.at + Int32At(a, s.at + 1) <= INT32_MAX)
      && (s.Stray? ==> FaultyInArray(a, s.at))
      && (s.Delimited? ==> a[s.at] == PB_START && Int32At(a, s.at + 1) == s.len && a[s.at + s.len - 1] == PB_END)
    decreases |a| - i
  {
    hide FindInArray, Int32At, FieldsFit;
    FindInArrayStep(a, i);
    if i < |a| {
      StopInArray(a, i + 1);
    }
  }

  /** The exact condition of a decode call: it faults if and only if the candidate at which it stops is faulty in
      the array; otherwise it stops where a frame can still arrive. */
  lemma {:induction false} FaultInArrayIsExplained(a: bytes, i: nat)
    requires i <= |a|
    ensures var r := DecodeArray(a, i);
      && (r.fault <==> FaultyInArray(a, r.stop))
      && (!r.fault ==> UnfinishedInArray(a, r.stop))
    decreases |a| - i
  {
    hide FindInArray, FieldsFit, Parse, Int32At;
    var s := FindInArray(a, i);
    StopInArray(a, i);
    if s.Delimited? && FieldsFit(a[s.at..], s.len) {
      FrameIsLong(a[s.at..], s.len);
      FaultInArrayIsExplained(a, s.at + s.len);
    }
  }

  lemma FrameIsLong(b: bytes, len: int)
    requires len <= |b| && FieldsFit(b, len)
    ensures FIXED_SIZE <= len
  {
  }

  /** The same window faults or is passed over, depending on a stale byte in front of it: its length is -1, and
      its end index that of the byte two before it. */
  lemma StaleBytesDecide()
    ensures var w: bytes := [0x02, 0xFF, 0xFF, 0xFF, 0xFF];
      && DecodeArray([3, 3, 3] + w, 3) == Decoded([], 3, true)
      && DecodeArray([0, 0, 0] + w, 3) == Decoded([], 8, false)
  {
    var w: bytes := [0x02, 0xFF, 0xFF, 0xFF, 0xFF];
    var a, b := [3, 3, 3] + w, [0, 0, 0] + w;
    assert a[4..8] == [0xFF, 0xFF, 0xFF, 0xFF] && b[4..8] == [0xFF, 0xFF, 0xFF, 0xFF];
    assert Int32At(a, 4) == -1 && Int32At(b, 4) == -1;
    assert FindInArray(a, 3) == Delimited(3, -1);
    FindInArrayStep(b, 3);
    FindInArrayStep(b, 4);
    FindInArrayStep(b, 5);
    FindInArrayStep(b, 6);
    FindInArrayStep(b, 7);
    FindInArrayStep(b, 8);
  }
}
