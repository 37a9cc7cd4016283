/** The TinyPB wire format as functions on byte sequences: what a frame is, how a stream of bytes is
    cut into frames, and the theorems about it. TinyPBCoder.dfy proves the coder against this. */
module TinyPB {
  import opened Bytes

  const PB_START: byte := 0x02
  const PB_END: byte := 0x03

  /** "123456789", put in place of an empty message id. */
  const FALLBACK_ID: bytes := [0x31, 0x32, 0x33, 0x34, 0x35, 0x36, 0x37, 0x38, 0x39]

  /** Bytes of a frame besides its three strings: two markers, the type and five 4-byte integers. */
  const FIXED_SIZE: nat := 23

  datatype Message = Message(
    msgType: int8,
    msgId: bytes,
    methodName: bytes,
    errorCode: int32,
    pbData: bytes,
    checkSum: int32)

  function WithId(m: Message): Message {
    if m.msgId == [] then m.(msgId := FALLBACK_ID) else m
  }

  function WithIds(ms: seq<Message>): (r: seq<Message>)
    ensures |r| == |ms|
  {
    seq(|ms|, i requires 0 <= i < |ms| => WithId(ms[i]))
  }

  function FrameSize(m: Message): nat {
    FIXED_SIZE + |m.msgId| + |m.methodName| + |m.pbData|
  }

  /** The frame of `m` fits the 32-bit length fields. */
  predicate Fits(m: Message) {
    FrameSize(m) <= INT32_MAX
  }

  function Head(m: Message): (h: bytes)
    ensures |h| == 10
  {
    [PB_START] + Int32Bytes(Narrow32(FrameSize(m))) + [Int8Byte(m.msgType)] + Int32Bytes(Narrow32(|m.msgId|))
  }

  function Tail(m: Message): (t: bytes)
    ensures |t| == 9 + |m.pbData|
  {
    Int32Bytes(m.errorCode) + m.pbData + Int32Bytes(m.checkSum) + [PB_END]
  }

  function Frame(m: Message): (f: bytes)
    ensures |f| == FrameSize(m)
  {
    Head(m) + m.msgId + Int32Bytes(Narrow32(|m.methodName|)) + m.methodName + Tail(m)
  }

  /** The bytes the encoder appends for a batch. */
  function Encoding(ms: seq<Message>): bytes {
    if ms == [] then [] else Frame(WithId(ms[0])) + Encoding(ms[1..])
  }

  function Int32At(f: bytes, i: nat): int32
    requires i + 4 <= |f|
  {
    BytesInt32(f[i..i + 4])
  }

  /** In the frame of `k` bytes at the front of `b` no inner length is negative, and the three strings fit
      between the fixed parts. */
  predicate FieldsFit(b: bytes, k: int)
    requires k <= |b|
  {
    && FIXED_SIZE <= k
    && 0 <= Int32At(b, 6) <= k - FIXED_SIZE
    && 0 <= Int32At(b, 10 + Int32At(b, 6)) <= k - FIXED_SIZE - Int32At(b, 6)
  }

  /** Exactly the delimited frames the decoder can take apart. */
  predicate WellFormed(f: bytes) { FieldsFit(f, |f|) }

  function IdLen(f: bytes): nat
    requires WellFormed(f)
  {
    Int32At(f, 6)
  }

  function MethodLen(f: bytes): nat
    requires WellFormed(f)
  {
    Int32At(f, 10 + IdLen(f))
  }

  function Parse(f: bytes): Message
    requires WellFormed(f)
  {
    var n, k := 10 + IdLen(f), 14 + IdLen(f) + MethodLen(f);
    Message(
      ByteInt8(f[5]),
      f[10..n],
      f[n + 4..k],
      Int32At(f, k),
      f[k + 4..|f| - 5],
      Int32At(f, |f| - 5))
  }

  /** Where a search for the next frame ends: no complete frame, a frame of `len` bytes between its two
      markers, or a candidate at which the search leaves what the stream determines. */
  datatype Search = Incomplete(at: nat) | Delimited(at: nat, len: int32) | Stray(at: nat)

  /** The search in a stream. `room` is the largest `i + len` the decoder's 32-bit index arithmetic can
      hold. A candidate is stray if its end overflows that, or if its length is not positive: the decoder
      then looks for the end marker in front of the candidate, in bytes that may be long gone. */
  function FindFrame(b: bytes, i: nat, room: int): (s: Search)
    requires i <= |b|
    ensures i <= s.at <= |b|
    ensures s.Delimited? ==> 0 < s.len && s.at + s.len <= |b|
    decreases |b| - i
  {
    if i == |b| then Incomplete(i)
    else if b[i] != PB_START then FindFrame(b, i + 1, room)
    else if |b| <= i + 4 then Incomplete(i)
    else
      var len := Int32At(b, i + 1);
      if len <= 0 || i + len > room then Stray(i)
      else if |b| <= i + len - 1 then Incomplete(i)
      else if b[i + len - 1] == PB_END then Delimited(i, len)
      else FindFrame(b, i + 1, room)
  }

  /** The messages of a stream from position `i` on, the position up to which it was consumed, and
      whether the decoder ran into a stray or an ill-formed frame there. */
  datatype Decoded = Decoded(out: seq<Message>, stop: nat, fault: bool) {
    function After(ms: seq<Message>): Decoded { this.(out := ms + out) }

    function Plus(n: nat): Decoded { this.(stop := stop + n) }
  }

  function DecodeFrom(b: bytes, i: nat, room: int): (r: Decoded)
    requires i <= |b|
    ensures i <= r.stop <= |b|
    decreases |b| - i
  {
    match FindFrame(b, i, room)
    case Incomplete(at) => Decoded([], at, false)
    case Stray(at) => Decoded([], at, true)
    case Delimited(at, len) =>
      var f := b[at..at + len];
      if WellFormed(f) then DecodeFrom(b, at + len, room).After([Parse(f)])
      else Decoded([], at, true)
  }

  /** Decoding with index arithmetic that never overflows: `i + len` stays below this bound. */
  function Unbounded(b: bytes): int { |b| + INT32_MAX }

  function Decode(b: bytes): Decoded {
    DecodeFrom(b, 0, Unbounded(b))
  }

  /** The search in the array that holds the window, from absolute index `i` on: what the decoder's loop
      does with every candidate. Only an end index that overflows or is negative leads outside the array;
      a length that is not positive can still hit a stale end marker in front of the candidate. */
  function FindInArray(a: bytes, i: nat): (s: Search)
    requires i <= |a|
    ensures i <= s.at <= |a|
    ensures s.Delimited? ==> s.at + 4 < |a| && 0 <= s.at + s.len - 1 < |a|
    decreases |a| - i
  {
    if i == |a| then Incomplete(i)
    else if a[i] != PB_START then FindInArray(a, i + 1)
    else if |a| <= i + 4 then Incomplete(i)
    else
      var len := Int32At(a, i + 1);
      var end := i + len - 1;
      if i + len > INT32_MAX || end < 0 then Stray(i)
      else if |a| <= end then Incomplete(i)
      else if a[end] == PB_END then Delimited(i, len)
      else FindInArray(a, i + 1)
  }

  /** What a decode call makes of the array from absolute index `i` on. */
  function DecodeArray(a: bytes, i: nat): (r: Decoded)
    requires i <= |a|
    ensures i <= r.stop <= |a|
    decreases |a| - i
  {
    match FindInArray(a, i)
    case Incomplete(at) => Decoded([], at, false)
    case Stray(at) => Decoded([], at, true)
    case Delimited(at, len) =>
      if FieldsFit(a[at..], len) then
        var f := a[at..at + len];
        assert f == a[at..][..len];
        WellFormedPrefix(a[at..], len);
        DecodeArray(a, at + len).After([Parse(f)])
      else Decoded([], at, true)
  }

  /** The search and the decode as the source computes them, with both indices narrowed to `int` first. With
      less than 2^32 bytes in the array a write index above `int` becomes negative: nothing is searched, and
      nothing is ever decoded again. A read index above `int` leads outside the array. */
  function FindCall(a: bytes, i: nat): (s: Search)
    requires i <= |a|
    ensures i <= s.at <= |a|
    ensures s.Delimited? ==> s.at + 4 < |a| && 0 <= s.at + s.len - 1 < |a|
  {
    if |a| <= INT32_MAX then FindInArray(a, i)
    else if i <= INT32_MAX then Incomplete(i) else Stray(i)
  }

  function DecodeCall(a: bytes, i: nat): (r: Decoded)
    requires i <= |a|
    ensures i <= r.stop <= |a|
  {
    if |a| <= INT32_MAX then DecodeArray(a, i) else Decoded([], i, i > INT32_MAX)
  }

  lemma WellFormedPrefix(b: bytes, k: nat)
    requires k <= |b|
    ensures WellFormed(b[..k]) <==> FieldsFit(b, k)
  {
    if FIXED_SIZE <= k {
      assert b[..k][6..10] == b[6..10];
      var n := 10 + Int32At(b, 6);
      if 10 <= n <= k - 13 {
        assert b[..k][n..n + 4] == b[n..n + 4];
      }
    }
  }

  // ---------------------------------------------------------------------------------------------
  // Frames and messages are in one-to-one correspondence
  // ---------------------------------------------------------------------------------------------

  lemma FiveParts(h: bytes, a: bytes, l: bytes, c: bytes, t: bytes)
    ensures var f, n := h + a + l + c + t, |h| + |a|;
      && f[..|h|] == h && f[|h|..n] == a && f[n..n + |l|] == l
      && f[n + |l|..n + |l| + |c|] == c && f[n + |l| + |c|..] == t
  {
  }

  lemma HeadFields(m: Message)
    requires Fits(m)
    ensures var h := Head(m);
      && h[0] == PB_START && h[1..5] == Int32Bytes(FrameSize(m))
      && h[5] == Int8Byte(m.msgType) && h[6..10] == Int32Bytes(|m.msgId|)
  {
  }

  lemma TailFields(m: Message)
    ensures var t := Tail(m);
      && t[..4] == Int32Bytes(m.errorCode) && t[4..|t| - 5] == m.pbData
      && t[|t| - 5..|t| - 1] == Int32Bytes(m.checkSum) && t[|t| - 1] == PB_END
  {
  }

  /** Where the fields of `m` stand in its frame. */
  lemma FrameFields(m: Message)
    requires Fits(m)
    ensures var f, n, k := Frame(m), 10 + |m.msgId|, 14 + |m.msgId| + |m.methodName|;
      && f[0] == PB_START && f[|f| - 1] == PB_END
      && f[1..5] == Int32Bytes(|f|) && f[5] == Int8Byte(m.msgType)
      && f[6..10] == Int32Bytes(|m.msgId|) && f[10..n] == m.msgId
      && f[n..n + 4] == Int32Bytes(|m.methodName|) && f[n + 4..k] == m.methodName
      && f[k..k + 4] == Int32Bytes(m.errorCode) && f[k + 4..|f| - 5] == m.pbData
      && f[|f| - 5..|f| - 1] == Int32Bytes(m.checkSum)
  {
    hide Head, Tail, Int32Bytes, Int8Byte;
    var f, h, l, t := Frame(m), Head(m), Int32Bytes(|m.methodName|), Tail(m);
    FiveParts(h, m.msgId, l, m.methodName, t);
    HeadFields(m);
    TailFields(m);
    var k := 14 + |m.msgId| + |m.methodName|;
    assert f[1..5] == h[1..5] && f[6..10] == h[6..10];
    assert k == |h| + |m.msgId| + |l| + |m.methodName| && f[k..] == t;
    assert f[k..|f|] == f[k..];
    SliceOfSlice(f, k, |f|, 0, 4);
    SliceOfSlice(f, k, |f|, 4, |t| - 5);
    SliceOfSlice(f, k, |f|, |t| - 5, |t| - 1);
  }

  /** A frame is taken apart into the message it was made from. */
  lemma ParseOfFrame(m: Message)
    requires Fits(m)
    ensures WellFormed(Frame(m)) && Parse(Frame(m)) == m
  {
    hide Frame, Int32Bytes, BytesInt32, Int8Byte, ByteInt8;
    FrameFields(m);
    Int32RoundTrip(|m.msgId|);
    Int32RoundTrip(|m.methodName|);
    Int32RoundTrip(m.errorCode);
    Int32RoundTrip(m.checkSum);
    Int8RoundTrip(m.msgType);
  }

  /** Conversely, a well-formed frame with correct markers and length is the frame of its message. */
  lemma FrameOfParse(f: bytes)
    requires WellFormed(f) && |f| <= INT32_MAX
    requires f[0] == PB_START && Int32At(f, 1) == |f| && f[|f| - 1] == PB_END
    ensures Frame(Parse(f)) == f
  {
    hide Int32Bytes, BytesInt32, Head, Tail;
    var m, n, k := Parse(f), 10 + IdLen(f), 14 + IdLen(f) + MethodLen(f);
    assert Head(m) == f[..10] by { HeadOfParse(f); }
    assert Tail(m) == f[k..] by { TailOfParse(f); }
    BytesRoundTrip(f[n..n + 4]);
    Cut(f, 10, n, n + 4, k);
  }

  lemma Cut(f: bytes, a: nat, b: nat, c: nat, d: nat)
    requires a <= b <= c <= d <= |f|
    ensures f == f[..a] + f[a..b] + f[b..c] + f[c..d] + f[d..]
  {
  }

  lemma HeadOfParse(f: bytes)
    requires WellFormed(f) && |f| <= INT32_MAX
    requires f[0] == PB_START && Int32At(f, 1) == |f|
    ensures Head(Parse(f)) == f[..10]
  {
    var m := Parse(f);
    BytesRoundTrip(f[1..5]);
    BytesRoundTrip(f[6..10]);
    assert FrameSize(m) == |f| && |m.msgId| == IdLen(f);
    assert f[..10] == [f[0]] + f[1..5] + [f[5]] + f[6..10];
  }

  lemma TailOfParse(f: bytes)
    requires WellFormed(f) && f[|f| - 1] == PB_END
    ensures Tail(Parse(f)) == f[14 + IdLen(f) + MethodLen(f)..]
  {
    var k := 14 + IdLen(f) + MethodLen(f);
    BytesRoundTrip(f[k..k + 4]);
    BytesRoundTrip(f[|f| - 5..|f| - 1]);
    var t := f[k..];
    assert t == t[..4] + t[4..|t| - 5] + t[|t| - 5..|t| - 1] + [t[|t| - 1]];
    assert t[..4] == f[k..k + 4] && t[4..|t| - 5] == f[k + 4..|f| - 5] && t[|t| - 5..|t| - 1] == f[|f| - 5..|f| - 1];
  }

  // ---------------------------------------------------------------------------------------------
  // Frames byte by byte
  // ---------------------------------------------------------------------------------------------

  /** The frame of a message with something in every field. */
  lemma SampleFrame()
    ensures Encoding([Message(1, [0x37, 0x38], [0x41, 0x2E, 0x62], 0x01020304, [9], 0x05060708)]) ==
      [0x02, 0, 0, 0, 29, 1, 0, 0, 0, 2] + [0x37, 0x38] + [0, 0, 0, 3] + [0x41, 0x2E, 0x62]
      + [1, 2, 3, 4, 9, 5, 6, 7, 8, 0x03]
  {
    var m := Message(1, [0x37, 0x38], [0x41, 0x2E, 0x62], 0x01020304, [9], 0x05060708);
    hide Head, Tail, Int32Bytes;
    SampleParts(m);
    assert Encoding([m]) == Frame(m) + Encoding([]);
  }

  lemma SampleParts(m: Message)
    requires m.msgType == 1 && |m.msgId| == 2 && |m.methodName| == 3
    requires m.errorCode == 0x01020304 && m.pbData == [9] && m.checkSum == 0x05060708
    ensures Head(m) == [0x02, 0, 0, 0, 29, 1, 0, 0, 0, 2] && Int32Bytes(Narrow32(|m.methodName|)) == [0, 0, 0, 3]
    ensures Tail(m) == [1, 2, 3, 4, 9, 5, 6, 7, 8, 0x03]
  {
  }

  /** An empty id is replaced by "123456789". */
  lemma EmptyIdIsReplaced(m: Message)
    ensures WithId(m) == if m.msgId != [] then m else
      Message(m.msgType, [0x31, 0x32, 0x33, 0x34, 0x35, 0x36, 0x37, 0x38, 0x39], m.methodName, m.errorCode, m.pbData,
              m.checkSum)
  {
  }

  /** A frame of 300 bytes announces its length as 1 and 44, most significant byte first. */
  lemma LongFrameHeader(m: Message)
    requires FrameSize(m) == 300
    ensures Frame(m)[..5] == [0x02, 0, 0, 1, 44]
  {
    hide Int32Bytes;
    FrameFields(m);
    WireSamples();
    assert Frame(m)[..5] == [Frame(m)[0]] + Frame(m)[1..5];
  }

  /** Such a header makes the search look for the end marker at the 300th byte. */
  lemma LongFrameIsFound(b: bytes, room: int)
    requires 300 <= |b| && 300 <= room && b[..5] == [0x02, 0, 0, 1, 44] && b[299] == 0x03
    ensures FindFrame(b, 0, room) == Delimited(0, 300)
  {
    WireSamples();
    assert b[0] == b[..5][0] && b[1..5] == b[..5][1..5] == [0, 0, 1, 44];
  }

  /** An array whose write index exceeds `int` is not decoded any more: no message, nothing consumed, and a fault
      only if the read index exceeds it too. One within the range is decoded from the read index on. */
  lemma WideArrayStalls(a: bytes, i: nat)
    requires i <= |a|
    ensures 2147483647 < |a| ==> DecodeCall(a, i) == Decoded([], i, 2147483647 < i)
    ensures |a| <= 2147483647 ==> DecodeCall(a, i) == DecodeArray(a, i)
  {
  }
}
