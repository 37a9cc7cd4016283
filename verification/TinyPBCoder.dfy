/** The coder of src/coder/tinypb_coder.cpp, working in place on a buffer. */
module TinyPBCoder {
  import opened Bytes
  import opened Buffers
  import opened TinyPB
  import opened TinyPBStream

  /** Appends the frames of a batch; `sent` are the messages with empty ids filled in, as the source
      leaves them. */
  method Encode(messages: seq<Message>, out: Buffer) returns (sent: seq<Message>)
    requires out.Valid()
    modifies out, out.buffer
    ensures out.Valid() && (out.buffer == old(out.buffer) || fresh(out.buffer))
    ensures out.Contents() == old(out.Contents()) + Encoding(messages)
    ensures sent == WithIds(messages)
  {
    hide Frame, Buffer.Contents, Buffer.Valid;
    sent := [];
    for i := 0 to |messages|
      invariant out.Valid() && (out.buffer == old(out.buffer) || fresh(out.buffer))
      invariant out.Contents() == old(out.Contents()) + Encoding(messages[..i])
      invariant sent == WithIds(messages[..i])
    {
      var pkg := messages[i];
      if |pkg.msgId| == 0 {
        pkg := pkg.(msgId := FALLBACK_ID);
      }
      EncodeOne(pkg, out);
      sent := sent + [pkg];
      assert messages[..i + 1] == messages[..i] + [messages[i]];
      EncodingAppend(messages[..i], [messages[i]]);
      assert Encoding([messages[i]]) == Frame(pkg) + Encoding([]);
      Associative(old(out.Contents()), Encoding(messages[..i]), Frame(pkg));
    }
    assert messages[..|messages|] == messages;
  }

  method EncodeOne(pkg: Message, out: Buffer)
    requires out.Valid()
    modifies out, out.buffer
    ensures out.Valid() && (out.buffer == old(out.buffer) || fresh(out.buffer))
    ensures out.Contents() == old(out.Contents()) + Frame(pkg)
  {
    hide Buffer.Contents, Head, Tail;
    ghost var before := out.Contents();
    EncodeHead(pkg, out);
    out.WriteToBuffer(pkg.msgId);
    out.AppendInt32(Narrow32(|pkg.methodName|));
    out.WriteToBuffer(pkg.methodName);
    EncodeTail(pkg, out);
    Reassociate(before, Head(pkg), pkg.msgId, Int32Bytes(Narrow32(|pkg.methodName|)), pkg.methodName, Tail(pkg));
  }

  method EncodeHead(pkg: Message, out: Buffer)
    requires out.Valid()
    modifies out, out.buffer
    ensures out.Valid() && (out.buffer == old(out.buffer) || fresh(out.buffer))
    ensures out.Contents() == old(out.Contents()) + Head(pkg)
  {
    hide Buffer.Contents, Int32Bytes, Int8Byte, Narrow32;
    ghost var before := out.Contents();
    var pkLen := Narrow32(3 + 4 * 5 + |pkg.msgId| + |pkg.methodName| + |pkg.pbData|);
    out.AppendInt8(PB_START as int8);
    out.AppendInt32(pkLen);
    out.AppendInt8(pkg.msgType);
    out.AppendInt32(Narrow32(|pkg.msgId|));
    assert Int8Byte(PB_START as int8) == PB_START by { Marker(PB_START); }
    Reassociate(before, [PB_START], Int32Bytes(pkLen), [Int8Byte(pkg.msgType)], Int32Bytes(Narrow32(|pkg.msgId|)), []);
  }

  method EncodeTail(pkg: Message, out: Buffer)
    requires out.Valid()
    modifies out, out.buffer
    ensures out.Valid() && (out.buffer == old(out.buffer) || fresh(out.buffer))
    ensures out.Contents() == old(out.Contents()) + Tail(pkg)
  {
    hide Buffer.Contents, Int32Bytes, Int8Byte;
    ghost var before := out.Contents();
    out.AppendInt32(pkg.errorCode);
    out.WriteToBuffer(pkg.pbData);
    out.AppendInt32(pkg.checkSum);
    out.AppendInt8(PB_END as int8);
    assert Int8Byte(PB_END as int8) == PB_END by { Marker(PB_END); }
    Reassociate(before, Int32Bytes(pkg.errorCode), pkg.pbData, Int32Bytes(pkg.checkSum), [PB_END], []);
  }

  lemma Marker(b: byte)
    requires b < 128
    ensures Int8Byte(b as int8) == b
  {
  }

  lemma Reassociate(b: bytes, h: bytes, i: bytes, l: bytes, n: bytes, t: bytes)
    ensures b + h + i + l + n + t == b + (h + i + l + n + t)
  {
  }

  // ---------------------------------------------------------------------------------------------
  // Decoding
  // ---------------------------------------------------------------------------------------------

  /** The copy of the four length bytes behind a start marker. */
  method PeekLength(buffer: Buffer, start: nat) returns (len: int32)
    requires buffer.Valid() && start + 4 < buffer.writeIndex
    ensures len == Int32At(buffer.buffer[..buffer.writeIndex], start + 1)
  {
    len := BytesInt32(buffer.buffer[start + 1..start + 5]);
    ghost var a := buffer.buffer[..buffer.writeIndex];
    assert a[start + 1..start + 5] == buffer.buffer[start + 1..start + 5];
  }

  /** The search loop: absolute indices into the array, narrowed to `int`, and 32-bit index arithmetic. `fault`
      stands for the read outside the array that a stray candidate or a negative start causes. */
  method Search(buffer: Buffer) returns (start: int, end: int, found: bool, fault: bool)
    requires buffer.Valid() && buffer.writeIndex < TWO_32
    ensures var s := FindCall(buffer.buffer[..buffer.writeIndex], buffer.readIndex);
      && found == s.Delimited? && (fault || start < buffer.readIndex <==> s.Stray?)
      && (!s.Stray? ==> start == s.at) && (s.Delimited? ==> end == start + s.len - 1)
  {
    hide FindInArray, Int32At;
    ghost var a := buffer.buffer[..buffer.writeIndex];
    end, found, fault := 0, false, false;
    start := Narrow32(buffer.readIndex);
    var n := Narrow32(buffer.writeIndex);
    while start < n
      invariant |a| <= INT32_MAX ==>
        buffer.readIndex <= start <= n && FindInArray(a, buffer.readIndex) == FindInArray(a, start)
      invariant |a| > INT32_MAX ==> start == Narrow32(buffer.readIndex)
    {
      if start < 0 {
        fault := true;
        return;
      }
      FindInArrayStep(a, start);
      if buffer.buffer[start] == PB_START {
        if start + 4 < n {
          var pkLen := PeekLength(buffer, start);
          if start + pkLen > INT32_MAX {
            fault := true;
            return;
          }
          end := start + pkLen - 1;
          if end >= n {
            return;
          } else if end < 0 {
            fault := true;
            return;
          } else if buffer.buffer[end] == PB_END {
            found := true;
            return;
          }
        } else {
          return;
        }
      }
      start := start + 1;
    }
    if |a| <= INT32_MAX {
      FindInArrayStep(a, start);
    }
  }

  /** `readInt32` behind its assertion that four bytes are there. */
  method TakeInt32(buffer: Buffer) returns (x: int32, ok: bool)
    requires buffer.Valid()
    modifies buffer
    ensures buffer.Valid() && buffer.buffer == old(buffer.buffer)
    ensures ok <==> 4 <= |old(buffer.Contents())|
    ensures ok ==> x == BytesInt32(old(buffer.Contents())[..4]) && buffer.Contents() == old(buffer.Contents())[4..]
    ensures !ok ==> buffer.Contents() == old(buffer.Contents())
    ensures 4 < |old(buffer.Contents())| ==>
      buffer.readIndex == old(buffer.readIndex) + 4 && buffer.writeIndex == old(buffer.writeIndex)
  {
    ok := 4 <= buffer.ReadableBytes();
    x := 0;
    if ok {
      x := buffer.ReadInt32();
    }
  }

  /** `readInt8` behind its assertion that a byte is there. */
  method TakeInt8(buffer: Buffer) returns (x: int8, ok: bool)
    requires buffer.Valid()
    modifies buffer
    ensures buffer.Valid() && buffer.buffer == old(buffer.buffer)
    ensures ok <==> 1 <= |old(buffer.Contents())|
    ensures ok ==> x == ByteInt8(old(buffer.Contents())[0]) && buffer.Contents() == old(buffer.Contents())[1..]
    ensures !ok ==> buffer.Contents() == old(buffer.Contents())
    ensures 1 < |old(buffer.Contents())| ==>
      buffer.readIndex == old(buffer.readIndex) + 1 && buffer.writeIndex == old(buffer.writeIndex)
  {
    ok := 1 <= buffer.ReadableBytes();
    x := 0;
    if ok {
      x := buffer.ReadInt8();
    }
  }

  /** `retrieveAsString` behind its assertion; a negative length becomes a huge size and fails it. */
  method TakeString(buffer: Buffer, len: int32) returns (s: bytes, ok: bool)
    requires buffer.Valid()
    modifies buffer
    ensures buffer.Valid() && buffer.buffer == old(buffer.buffer)
    ensures ok <==> 0 <= len <= |old(buffer.Contents())|
    ensures ok ==> s == old(buffer.Contents())[..len] && buffer.Contents() == old(buffer.Contents())[len..]
    ensures !ok ==> buffer.Contents() == old(buffer.Contents())
    ensures 0 <= len < |old(buffer.Contents())| ==>
      buffer.readIndex == old(buffer.readIndex) + len && buffer.writeIndex == old(buffer.writeIndex)
  {
    ok := 0 <= len <= buffer.ReadableBytes();
    s := [];
    if ok {
      s := buffer.RetrieveAsString(len);
    }
  }

  /** A signed 32-bit sum that does not overflow. */
  predicate InInt32(x: int) { -0x8000_0000 <= x <= INT32_MAX }

  /** The cursor stands at absolute index `at` of the window that ends at `n`. */
  ghost predicate CursorAt(buffer: Buffer, at: int, n: int)
    reads buffer
  {
    buffer.readIndex == at && buffer.writeIndex == n
  }

  /** From the start marker to the message id: guards 1 to 3. Only where the window ends at the limit of
      the index range can `start + 10` wrap; the window is then exhausted. */
  method ReadId(buffer: Buffer, start: nat, end: nat)
    returns (msgType: int8, idLen: int32, msgId: bytes, index: int, success: bool, fault: bool)
    requires buffer.Valid() && CursorAt(buffer, start, buffer.writeIndex)
    requires start + 5 <= buffer.writeIndex <= INT32_MAX && end < buffer.writeIndex
    modifies buffer
    ensures buffer.Valid() && buffer.buffer == old(buffer.buffer)
    ensures |buffer.Contents()| <= |old(buffer.Contents())| - 5
    ensures !fault && start + 10 <= INT32_MAX ==>
      && 0 <= idLen && index == start + 10 + idLen <= INT32_MAX
      && success == (index < end) && (idLen > 0 ==> start + 10 < end)
    ensures !fault && start + 10 > INT32_MAX ==> Exhausted(buffer, index) && !success && idLen == 0
    ensures !fault && success ==>
      && buffer.Contents() == old(buffer.Contents())[10 + idLen..]
      && CursorAt(buffer, index, old(buffer.writeIndex))
      && idLen == Int32At(old(buffer.Contents()), 6)
      && msgType == ByteInt8(old(buffer.Contents())[5])
      && msgId == old(buffer.Contents())[10..10 + idLen]
    ensures start + 10 < end ==>
      var len := Int32At(old(buffer.Contents()), 6);
      (fault <==> len < 0 || !InInt32(start + 10 + len))
    ensures start + 10 < end && !fault ==> idLen == Int32At(old(buffer.Contents()), 6)
  {
    hide BytesInt32, Narrow32, Buffer.Contents;
    ghost var b := buffer.Contents();
    assert |b| == buffer.ReadableBytes();
    var ok;
    msgType, idLen, msgId, index, success, fault := 0, 0, [], 0, true, false;
    var mark := buffer.ReadInt8();
    var pkLen := buffer.ReadInt32();
    assert buffer.Contents() == b[5..];
    var msgTypeIndex := Narrow32(start + 1 + 4 + 1);
    if msgTypeIndex >= end {
      success := false;
    } else {
      msgType, ok := TakeInt8(buffer);
      if !ok {
        fault := true;
        return;
      }
      assert success && start + 10 < end ==> CursorAt(buffer, msgTypeIndex, old(buffer.writeIndex));
    }
    var idLenIndex := Narrow32(msgTypeIndex + 4);
    if idLenIndex >= end {
      success := false;
    } else {
      assert start + 10 < end ==> buffer.Contents() == b[6..];
      assert start + 10 < end ==> b[6..][..4] == b[6..10];
      idLen, ok := TakeInt32(buffer);
      if !ok {
        fault := true;
        return;
      }
      assert start + 10 < end ==> CursorAt(buffer, idLenIndex, old(buffer.writeIndex));
    }
    index := idLenIndex + idLen;
    if !InInt32(index) {
      fault := true;
      return;
    }
    if index >= end {
      success := false;
    } else {
      assert start + 10 < end ==> buffer.Contents() == b[10..];
      msgId, ok := TakeString(buffer, idLen);
      fault := !ok;
      assert ok && start + 10 < end ==> CursorAt(buffer, index, old(buffer.writeIndex));
    }
  }

  /** A wrapped index with nothing left to read: the next read fails its assertion. */
  ghost predicate Exhausted(buffer: Buffer, index: int)
    reads buffer, buffer.buffer
    requires buffer.Valid()
  {
    buffer.Contents() == [] && InInt32(index) && index < -4
  }

  /** The length that reading the payload needs, as the source computes it in mixed signed and unsigned
      arithmetic, and whether `readable` bytes cannot provide it. */
  predicate Doomed(start: nat, end: nat, idLen: int32, methodLen: int32, readable: nat) {
    var len := Narrow32(end - start + 1 - idLen - methodLen - 4 * 5 - 3);
    len < 0 || readable < len
  }

  /** The method name: guards 4 and 5. With guard 3 failed, or either of these, the sums may wrap and
      let a later guard pass, but the payload length is then out of reach. */
  method ReadMethod(buffer: Buffer, start: nat, end: nat, idLen: int32, idIndex: int, sofar: bool)
    returns (methodLen: int32, name: bytes, index: int, success: bool, fault: bool)
    requires buffer.Valid() && end < INT32_MAX
    requires |buffer.Contents()| <= INT32_MAX - start - 5
    requires start + 10 <= INT32_MAX ==>
      && 0 <= idLen && idIndex == start + 10 + idLen <= INT32_MAX
      && sofar == (idIndex < end) && (idLen > 0 ==> start + 10 < end)
    requires start + 10 > INT32_MAX ==> Exhausted(buffer, idIndex) && !sofar && idLen == 0
    requires sofar ==> CursorAt(buffer, idIndex, buffer.writeIndex) && end < buffer.writeIndex <= INT32_MAX
    modifies buffer
    ensures buffer.Valid() && buffer.buffer == old(buffer.buffer)
    ensures |buffer.Contents()| <= |old(buffer.Contents())|
    ensures !fault && success ==> sofar
    ensures !fault && success && idIndex + 4 > INT32_MAX ==> Exhausted(buffer, index) && methodLen == 0
    ensures !fault && success && idIndex + 4 <= INT32_MAX ==>
      && 0 <= methodLen && index == idIndex + 4 + methodLen < end
      && CursorAt(buffer, index, old(buffer.writeIndex))
      && methodLen == Int32At(old(buffer.Contents()), 0)
      && name == old(buffer.Contents())[4..4 + methodLen]
      && buffer.Contents() == old(buffer.Contents())[4 + methodLen..]
    ensures !fault && !success ==>
      && start + 10 <= INT32_MAX
      && (index == idIndex + 4 + methodLen || index == idIndex + 4 + methodLen - TWO_32)
      && InInt32(index)
      && Doomed(start, end, idLen, methodLen, |buffer.Contents()|)
    ensures sofar && idIndex + 4 < end ==>
      (!fault && success <==> 0 <= Int32At(old(buffer.Contents()), 0) < end - idIndex - 4)
    ensures sofar && end <= idIndex + 4 <= INT32_MAX ==> fault || !success
  {
    hide BytesInt32, Narrow32, Buffer.Contents;
    ghost var b := buffer.Contents();
    assert |b| == buffer.ReadableBytes();
    methodLen, name, index, success, fault := 0, [], 0, sofar, false;
    var lenIndex := Narrow32(idIndex + 4);
    if lenIndex >= end {
      success := false;
    } else {
      var ok;
      methodLen, ok := TakeInt32(buffer);
      if !ok {
        fault := true;
        return;
      }
      assert sofar && idIndex + 4 <= INT32_MAX ==> CursorAt(buffer, lenIndex, old(buffer.writeIndex));
    }
    index := lenIndex + methodLen;
    if !InInt32(index) {
      fault := true;
      return;
    }
    if index >= end {
      success := false;
    } else {
      var ok;
      name, ok := TakeString(buffer, methodLen);
      if !ok {
        fault := true;
        return;
      }
      assert sofar && idIndex + 4 <= INT32_MAX ==> CursorAt(buffer, index, old(buffer.writeIndex));
    }
  }

  /** Error code, payload and check sum: guards 6 to 8. Guard 7 compares `end - 4` with `end`, so it
      never fails, and the payload length decides. */
  method ReadRest(buffer: Buffer, start: nat, end: nat, idLen: int32, methodLen: int32, nameIndex: int, sofar: bool)
    returns (errorCode: int32, pbData: bytes, checkSum: int32, success: bool, fault: bool)
    requires buffer.Valid() && end < INT32_MAX
    requires |buffer.Contents()| <= INT32_MAX - start - 5
    requires 0 <= idLen && InInt32(nameIndex) && start + 10 + idLen <= INT32_MAX
    requires sofar && start + 14 + idLen > INT32_MAX ==> Exhausted(buffer, nameIndex) && methodLen == 0
    requires sofar && start + 14 + idLen <= INT32_MAX ==>
      && 0 <= methodLen && nameIndex == start + 14 + idLen + methodLen < end
      && CursorAt(buffer, nameIndex, buffer.writeIndex) && end < buffer.writeIndex
    requires !sofar ==>
      && (nameIndex == start + 14 + idLen + methodLen || nameIndex == start + 14 + idLen + methodLen - TWO_32)
      && Doomed(start, end, idLen, methodLen, |buffer.Contents()|)
    modifies buffer
    ensures buffer.Valid() && buffer.buffer == old(buffer.buffer)
    ensures fault <==> !(sofar && FIXED_SIZE + idLen + methodLen <= end - start + 1)
    ensures !fault ==>
      && success
      && var len := end - start + 1 - FIXED_SIZE - idLen - methodLen;
      && errorCode == Int32At(old(buffer.Contents()), 0)
      && pbData == old(buffer.Contents())[4..4 + len]
      && checkSum == Int32At(old(buffer.Contents()), 4 + len)
      && buffer.Contents() == old(buffer.Contents())[8 + len..]
      && CursorAt(buffer, end, old(buffer.writeIndex))
  {
    hide BytesInt32, Narrow32, Buffer.Contents;
    ghost var b := buffer.Contents();
    assert |b| == buffer.ReadableBytes();
    errorCode, pbData, checkSum, success, fault := 0, [], 0, sofar, false;
    var codeIndex := Narrow32(nameIndex + 4);
    if codeIndex >= end {
      success := false;
    } else {
      var ok;
      errorCode, ok := TakeInt32(buffer);
      if !ok {
        fault := true;
        return;
      }
      assert sofar && nameIndex + 4 <= INT32_MAX ==> CursorAt(buffer, codeIndex, old(buffer.writeIndex));
    }
    var len := Narrow32(end - start + 1 - idLen - methodLen - 4 * 5 - 3);
    var dataIndex := codeIndex + len;
    if !InInt32(dataIndex) {
      fault := true;
      return;
    }
    assert dataIndex == end - 4;
    if dataIndex >= end {
      success := false;
    } else {
      var ok;
      pbData, ok := TakeString(buffer, len);
      if !ok {
        fault := true;
        return;
      }
    }
    assert sofar && 0 <= len && CursorAt(buffer, dataIndex, old(buffer.writeIndex));
    var sumIndex := Narrow32(dataIndex + 4);
    if sumIndex > end {
      success := false;
    } else {
      assert buffer.Contents() == b[4 + len..];
      assert b[4 + len..][..4] == b[4 + len..4 + len + 4];
      checkSum := buffer.ReadInt32();
    }
  }

  lemma Int32AfterDrop(b: bytes, i: nat, j: nat)
    requires i + j + 4 <= |b|
    ensures Int32At(b[i..], j) == Int32At(b, i + j)
  {
    SliceOfSlice(b, i, |b|, j, j + 4);
    assert b[i..|b|] == b[i..];
  }

  lemma DropThree(b: bytes, i: nat, j: nat, k: nat)
    requires i + j + k < |b|
    ensures b[i..][j..][k..][1..] == b[i + j + k + 1..]
  {
  }

  /** The fields as the reads find them, each at the front of what is left. */
  lemma ParsePrefix(b: bytes, k: nat)
    requires k <= |b| && WellFormed(b[..k])
    ensures IdLen(b[..k]) == Int32At(b, 6) && MethodLen(b[..k]) == Int32At(b, 10 + Int32At(b, 6))
    ensures var i := IdLen(b[..k]);
      var r := b[10 + i..];
      var n := MethodLen(b[..k]);
      var t := r[4 + n..];
      var len := k - FIXED_SIZE - i - n;
      Parse(b[..k]) ==
      Message(ByteInt8(b[5]), b[10..10 + i], r[4..4 + n], Int32At(t, 0), t[4..4 + len], Int32At(t, 4 + len))
  {
    hide BytesInt32;
    var f, n := b[..k], 10 + IdLen(b[..k]);
    var m := n + 4 + MethodLen(f);
    assert f[6..10] == b[6..10] && f[n..n + 4] == b[n..n + 4];
    assert f[m..m + 4] == b[m..m + 4] && f[k - 5..k - 1] == b[k - 5..k - 1];
    var r := b[n..];
    SliceOfSlice(b, n, |b|, 4, m - n);
    assert b[n..|b|] == r && r[m - n..] == b[m..];
    Int32AfterDrop(b, m, 0);
    Int32AfterDrop(b, m, k - 5 - m);
    SliceOfSlice(b, m, |b|, 4, k - 5 - m);
    assert b[m..|b|] == b[m..];
  }

  /** All the fields of a delimited frame: the reads and guards in source order. They succeed exactly
      when the frame is well-formed; otherwise an assertion of the buffer fails, whatever the wrapped
      sums let through. */
  method ReadFields(buffer: Buffer, start: nat, end: nat) returns (pkg: Message, success: bool, fault: bool)
    requires buffer.Valid() && CursorAt(buffer, start, buffer.writeIndex)
    requires start + 5 <= buffer.writeIndex <= INT32_MAX && end < buffer.writeIndex
    modifies buffer
    ensures buffer.Valid() && buffer.buffer == old(buffer.buffer)
    ensures fault <==> !FieldsFit(old(buffer.Contents()), end - start + 1)
    ensures !fault ==>
      var b, k := old(buffer.Contents()), end - start + 1;
      var i := Int32At(b, 6);
      var r := b[10 + i..];
      var n := Int32At(b, 10 + i);
      var t := r[4 + n..];
      var len := k - FIXED_SIZE - i - n;
      && success
      && pkg == Message(ByteInt8(b[5]), b[10..10 + i], r[4..4 + n], Int32At(t, 0), t[4..4 + len], Int32At(t, 4 + len))
      && buffer.Contents() == t[8 + len..]
      && CursorAt(buffer, end, old(buffer.writeIndex))
  {
    hide Int32At, Narrow32, Doomed, Buffer.Contents;
    ghost var b, k := buffer.Contents(), end - start + 1;
    assert |b| == buffer.ReadableBytes();
    pkg := Message(0, [], [], 0, [], 0);
    var msgType, idLen, msgId, idIndex, methodLen, name, nameIndex, errorCode, pbData, checkSum;
    msgType, idLen, msgId, idIndex, success, fault := ReadId(buffer, start, end);
    if fault {
      return;
    }
    if success && idIndex + 4 < end {
      Int32AfterDrop(b, 10 + idLen, 0);
    }
    methodLen, name, nameIndex, success, fault := ReadMethod(buffer, start, end, idLen, idIndex, success);
    if fault {
      return;
    }
    errorCode, pbData, checkSum, success, fault := ReadRest(buffer, start, end, idLen, methodLen, nameIndex, success);
    pkg := Message(msgType, msgId, name, errorCode, pbData, checkSum);
  }

  /** One delimited frame, from its start marker at absolute index `start` to its end marker at `end`.
      The branch that skips a frame after a failed guard is never entered. */
  method ReadFrame(buffer: Buffer, start: nat, end: nat) returns (pkg: Message, ok: bool)
    requires buffer.Valid() && CursorAt(buffer, start, buffer.writeIndex)
    requires start + 5 <= buffer.writeIndex <= INT32_MAX && end < buffer.writeIndex
    modifies buffer
    ensures buffer.Valid() && buffer.buffer == old(buffer.buffer)
    ensures var b, k := old(buffer.Contents()), end - start + 1;
      && (ok <==> FieldsFit(b, k))
      && (ok ==> WellFormed(b[..k]) && pkg == Parse(b[..k]) && buffer.Contents() == b[k..])
    ensures ok ==> if end + 1 < old(buffer.writeIndex)
                   then CursorAt(buffer, end + 1, old(buffer.writeIndex)) else CursorAt(buffer, 0, 0)
  {
    hide Parse, WellFormed, Int32At, Buffer.Contents, IdLen, MethodLen;
    ghost var b, k := buffer.Contents(), end - start + 1;
    assert |b| == buffer.ReadableBytes();
    var success, fault;
    pkg, success, fault := ReadFields(buffer, start, end);
    ok := !fault;
    if ok {
      WellFormedPrefix(b, k);
      ParsePrefix(b, k);
      ghost var i := Int32At(b, 6);
      ghost var n := Int32At(b, 10 + i);
      DropThree(b, 10 + i, 4 + n, k - 15 - i - n);
      assert |buffer.Contents()| == buffer.ReadableBytes();
      if success {
        var mark := buffer.ReadInt8();
      } else {
        assert false;
      }
    }
  }

  /** The cursor at index `at` of the array whose first bytes are `a`; a drained buffer has started over. */
  ghost predicate Consumed(buffer: Buffer, a: bytes, at: nat)
    reads buffer, buffer.buffer
  {
    && buffer.Valid() && at <= |a| < TWO_32 && buffer.Contents() == a[at..]
    && ((CursorAt(buffer, at, |a|) && buffer.buffer[..|a|] == a)
        || (at == |a| <= INT32_MAX && CursorAt(buffer, 0, 0)))
  }

  /** One round of the outer loop: search, drop what precedes the candidate, and take the frame off. */
  method DecodeOne(buffer: Buffer, ghost a: bytes, ghost at: nat) returns (pkg: Message, found: bool, fault: bool)
    requires Consumed(buffer, a, at)
    modifies buffer
    ensures buffer.Valid() && buffer.buffer == old(buffer.buffer)
    ensures var s := FindCall(a, at);
      && found == s.Delimited?
      && fault == (s.Stray? || (found && !FieldsFit(a[s.at..], s.len)))
      && (!fault && !found ==> buffer.Contents() == a[s.at..])
      && (!fault && found ==>
        && WellFormed(a[s.at..s.at + s.len]) && pkg == Parse(a[s.at..s.at + s.len])
        && Consumed(buffer, a, s.at + s.len))
  {
    hide FindInArray, Parse, WellFormed, FieldsFit, Int32At;
    pkg := Message(0, [], [], 0, [], 0);
    ghost var drained := at == |a| && CursorAt(buffer, 0, 0);
    assert drained ==> buffer.buffer[..buffer.writeIndex] == [];
    FindInArrayStep(a, |a|);
    FindInArrayStep([], 0);
    var start, end;
    start, end, found, fault := Search(buffer);
    fault := fault || start < buffer.readIndex;
    if fault {
      return;
    }
    var skipped := start - buffer.readIndex;
    buffer.Retrieve(skipped);
    assert !drained ==> a[at..][skipped..] == a[start..];
    if found {
      ghost var k := end - start + 1;
      var ok;
      pkg, ok := ReadFrame(buffer, start, end);
      fault := !ok;
      FrameInRest(a, start, k);
    }
  }

  /** Decodes every complete frame of the buffer and leaves the rest in it. `fault` is set where the
      source would fail an assertion or read outside the array; the process does not outlive it. */
  method Decode(buffer: Buffer) returns (messages: seq<Message>, fault: bool)
    requires buffer.Valid() && buffer.writeIndex < TWO_32
    modifies buffer
    ensures buffer.Valid() && buffer.buffer == old(buffer.buffer)
    ensures var a := old(buffer.buffer[..buffer.writeIndex]);
      var r := DecodeCall(a, old(buffer.readIndex));
      messages == r.out && fault == r.fault && (!fault ==> buffer.Contents() == a[r.stop..])
  {
    hide FindCall, Parse, WellFormed, FieldsFit, DecodeCall, Buffer.Contents, Int32At;
    ghost var a, base := buffer.buffer[..buffer.writeIndex], buffer.readIndex;
    ghost var at: nat := base;
    messages, fault := [], false;
    assert buffer.Contents() == a[base..] by { WindowOfArray(buffer); }
    while true
      invariant buffer.Valid() && buffer.buffer == old(buffer.buffer) && !fault
      invariant Consumed(buffer, a, at)
      invariant DecodeCall(a, base) == DecodeCall(a, at).After(messages)
      decreases |a| - at
    {
      DecodeCallStep(a, at, messages);
      ghost var s := FindCall(a, at);
      var pkg, found;
      pkg, found, fault := DecodeOne(buffer, a, at);
      if fault || !found {
        return;
      }
      messages := messages + [pkg];
      at := s.at + s.len;
    }
  }

  lemma WindowOfArray(buffer: Buffer)
    requires buffer.Valid()
    ensures buffer.Contents() == buffer.buffer[..buffer.writeIndex][buffer.readIndex..]
  {
  }

  lemma DecodeCallStep(a: bytes, at: nat, before: seq<Message>)
    requires at <= |a|
    ensures var s := FindCall(a, at);
      if s.Delimited? && FieldsFit(a[s.at..], s.len)
      then && WellFormed(a[s.at..s.at + s.len])
           && s.at + s.len > at
           && DecodeCall(a, at).After(before)
              == DecodeCall(a, s.at + s.len).After(before + [Parse(a[s.at..s.at + s.len])])
      else DecodeCall(a, at).After(before) == Decoded(before, s.at, !s.Incomplete?)
  {
    hide FindInArray, DecodeArray, Parse, WellFormed, FieldsFit;
    if |a| <= INT32_MAX {
      DecodeArrayStep(a, at, before);
    } else {
      assert before + [] == before;
    }
  }

  /** One frame of a decode, with the messages got before it. */
  lemma DecodeArrayStep(a: bytes, at: nat, before: seq<Message>)
    requires at <= |a|
    ensures var s := FindInArray(a, at);
      if s.Delimited? && FieldsFit(a[s.at..], s.len)
      then && WellFormed(a[s.at..s.at + s.len])
           && s.at + s.len > at
           && DecodeArray(a, at).After(before)
              == DecodeArray(a, s.at + s.len).After(before + [Parse(a[s.at..s.at + s.len])])
      else DecodeArray(a, at).After(before) == Decoded(before, s.at, !s.Incomplete?)
  {
    hide FindInArray, Parse, WellFormed;
    var s := FindInArray(a, at);
    if s.Delimited? && FieldsFit(a[s.at..], s.len) {
      FrameInRest(a, s.at, s.len);
      var rest := DecodeArray(a, s.at + s.len);
      var m := Parse(a[s.at..s.at + s.len]);
      assert before + ([m] + rest.out) == before + [m] + rest.out;
    }
  }

  lemma FrameInRest(a: bytes, at: nat, len: int)
    requires at <= |a| && len <= |a| - at
    ensures FieldsFit(a[at..], len) ==>
      && a[at..][..len] == a[at..at + len] && a[at..][len..] == a[at + len..] && WellFormed(a[at..at + len])
  {
    hide WellFormed;
    if FieldsFit(a[at..], len) {
      assert a[at..][..len] == a[at..at + len];
      WellFormedPrefix(a[at..], len);
    }
  }
}
