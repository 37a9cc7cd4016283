/** The growable byte buffer of src/common/Buffer.h and Buffer.cpp: an array and two indices
    that together stand for a queue of bytes, `Contents()`. */
module Buffers {
  import opened Bytes

  const INITIAL_SIZE: nat := 1024
  const EXTRA_SIZE: nat := 65536

  /** What `readv` can do to the caller: deliver bytes (none of them at end of file), or fail. */
  datatype Arrival = Data(data: bytes) | Again | Interrupted

  /** What `write` can do: take up to `room` of the bytes offered, or fail with EAGAIN. */
  datatype Taken = Room(room: nat) | Full

  class Buffer {
    var buffer: array<byte>
    var readIndex: nat
    var writeIndex: nat

    ghost predicate Valid()
      reads this, buffer
    {
      readIndex <= writeIndex <= buffer.Length
    }

    /** The readable window. */
    ghost function Contents(): bytes
      reads this, buffer
      requires Valid()
    {
      buffer[readIndex..writeIndex]
    }

    constructor ()
      ensures Valid() && fresh(buffer)
      ensures Contents() == [] && buffer.Length == 1024 && readIndex == 0
    {
      buffer := new byte[INITIAL_SIZE](_ => 0);
      readIndex, writeIndex := 0, 0;
    }

    function ReadableBytes(): (n: nat)
      reads this, buffer
      requires Valid()
      ensures n == |Contents()|
    {
      writeIndex - readIndex
    }

    function WriteableBytes(): (n: nat)
      reads this, buffer
      requires Valid()
      ensures writeIndex + n == buffer.Length
    {
      buffer.Length - writeIndex
    }

    /** Makes room for `len` more bytes behind the window, by growing the array when the free space
        before and after the window is too small, and by moving the window to the front otherwise. */
    method MakeSpace(len: nat)
      requires Valid()
      modifies this, buffer
      ensures Valid() && (buffer == old(buffer) || fresh(buffer))
      ensures Contents() == old(Contents())
      ensures writeIndex + len <= buffer.Length && writeIndex <= old(writeIndex)
      ensures if old(WriteableBytes() + readIndex) < len
              then readIndex == old(readIndex) && buffer.Length == old(writeIndex) + len
              else readIndex == 0 && buffer == old(buffer)
    {
      if WriteableBytes() + readIndex < len {
        var grown := new byte[writeIndex + len](_ => 0);
        forall i | 0 <= i < buffer.Length {
          grown[i] := buffer[i];
        }
        buffer := grown;
        assert Contents() == old(Contents());
      } else {
        var readable := ReadableBytes();
        forall i | 0 <= i < readable {
          buffer[i] := buffer[readIndex + i];
        }
        readIndex := 0;
        writeIndex := readable;
        assert Contents() == old(Contents());
      }
    }

    /** Drops `len` bytes; a drained buffer starts again at index zero. No byte moves. */
    method Retrieve(len: nat)
      requires Valid() && len <= |Contents()|
      modifies this
      ensures Valid() && buffer == old(buffer)
      ensures Contents() == old(Contents())[len..]
      ensures if len < |old(Contents())|
              then readIndex == old(readIndex) + len && writeIndex == old(writeIndex)
              else readIndex == writeIndex == 0
    {
      if len < ReadableBytes() {
        readIndex := readIndex + len;
      } else {
        readIndex := 0;
        writeIndex := 0;
      }
    }

    /** `std::copy` behind the window, where there is room for it. */
    method CopyIn(data: bytes)
      requires Valid() && |data| <= WriteableBytes()
      modifies this, buffer
      ensures Valid() && buffer == old(buffer)
      ensures readIndex == old(readIndex) && writeIndex == old(writeIndex) + |data|
      ensures Contents() == old(Contents()) + data
    {
      forall i | writeIndex <= i < writeIndex + |data| {
        buffer[i] := data[i - writeIndex];
      }
      writeIndex := writeIndex + |data|;
      ghost var before, after := old(Contents()), Contents();
      assert forall i :: 0 <= i < |before| ==> after[i] == before[i];
      assert forall i :: |before| <= i < |after| ==> after[i] == data[i - |before|];
    }

    method WriteToBuffer(data: bytes)
      requires Valid()
      modifies this, buffer
      ensures Valid() && (buffer == old(buffer) || fresh(buffer))
      ensures readIndex <= old(readIndex) && writeIndex <= old(writeIndex) + |data|
      ensures buffer.Length <= old(buffer.Length) || buffer.Length <= |Contents()| + |data|
      ensures Contents() == old(Contents()) + data
    {
      if WriteableBytes() < |data| {
        MakeSpace(|data|);
      }
      CopyIn(data);
    }

    method RetrieveAsString(len: nat) returns (s: bytes)
      requires Valid() && len <= |Contents()|
      modifies this
      ensures Valid() && buffer == old(buffer)
      ensures s == old(Contents())[..len] && Contents() == old(Contents())[len..]
      ensures if len < |old(Contents())|
              then readIndex == old(readIndex) + len && writeIndex == old(writeIndex)
              else readIndex == writeIndex == 0
    {
      s := buffer[readIndex..readIndex + len];
      Retrieve(len);
    }

    method PeekInt32() returns (x: int32)
      requires Valid() && 4 <= |Contents()|
      ensures x == BytesInt32(Contents()[..4])
    {
      assert Contents()[..4] == buffer[readIndex..readIndex + 4];
      x := BytesInt32(buffer[readIndex..readIndex + 4]);
    }

    method ReadInt32() returns (x: int32)
      requires Valid() && 4 <= |Contents()|
      modifies this
      ensures Valid() && buffer == old(buffer)
      ensures x == BytesInt32(old(Contents())[..4]) && Contents() == old(Contents())[4..]
      ensures if 4 < |old(Contents())|
              then readIndex == old(readIndex) + 4 && writeIndex == old(writeIndex)
              else readIndex == writeIndex == 0
    {
      x := PeekInt32();
      Retrieve(4);
    }

    method ReadInt8() returns (x: int8)
      requires Valid() && 1 <= |Contents()|
      modifies this
      ensures Valid() && buffer == old(buffer)
      ensures x == ByteInt8(old(Contents())[0]) && Contents() == old(Contents())[1..]
      ensures if 1 < |old(Contents())|
              then readIndex == old(readIndex) + 1 && writeIndex == old(writeIndex)
              else readIndex == writeIndex == 0
    {
      x := ByteInt8(buffer[readIndex]);
      Retrieve(1);
    }

    method AppendInt32(x: int32)
      requires Valid()
      modifies this, buffer
      ensures Valid() && (buffer == old(buffer) || fresh(buffer))
      ensures Contents() == old(Contents()) + Int32Bytes(x)
    {
      WriteToBuffer(Int32Bytes(x));
    }

    method AppendInt8(x: int8)
      requires Valid()
      modifies this, buffer
      ensures Valid() && (buffer == old(buffer) || fresh(buffer))
      ensures Contents() == old(Contents()) + [Int8Byte(x)]
    {
      WriteToBuffer([Int8Byte(x)]);
    }

    /** One scatter read: the bytes that arrived fill the free tail of the array first, and what does
        not fit there lands in a 64 KiB side buffer that is appended afterwards. */
    method ReadFd(env: Arrival) returns (n: int)
      requires Valid()
      requires env.Data? ==> |env.data| <= WriteableBytes() + 65536
      modifies this, buffer
      ensures Valid() && (buffer == old(buffer) || fresh(buffer))
      ensures readIndex <= old(readIndex)
      ensures buffer.Length <= old(buffer.Length) || buffer.Length <= |Contents()| + EXTRA_SIZE
      ensures !env.Data? || |env.data| <= old(WriteableBytes()) ==> buffer == old(buffer) && readIndex == old(readIndex)
      ensures env.Data? ==> writeIndex <= old(writeIndex) + |env.data|
      ensures !env.Data? ==> writeIndex == old(writeIndex)
      ensures env.Data? ==> n == |env.data| && Contents() == old(Contents()) + env.data
      ensures !env.Data? ==> n == -1 && Contents() == old(Contents())
    {
      if !env.Data? {
        return -1;
      }
      n := |env.data|;
      var writable := WriteableBytes();
      if n <= writable {
        CopyIn(env.data);
      } else {
        CopyIn(env.data[..writable]);
        WriteToBuffer(env.data[writable..]);
        assert env.data == env.data[..writable] + env.data[writable..];
      }
    }

    /** One write: what the kernel takes leaves the front of the window. */
    method WriteFd(env: Taken) returns (n: int, ghost taken: bytes)
      requires Valid()
      modifies this
      ensures Valid() && buffer == old(buffer)
      ensures old(Contents()) == taken + Contents()
      ensures env.Full? ==> n == -1 && taken == []
      ensures env.Room? ==> n == |taken| == if env.room <= |old(Contents())| then env.room else |old(Contents())|
    {
      if env.Full? {
        return -1, [];
      }
      var len := if env.room <= ReadableBytes() then env.room else ReadableBytes();
      taken := Contents()[..len];
      n := len;
      Retrieve(len);
    }
  }
}
