/**
 The growable byte buffer (src/network/base/MsgBuffer.h, MsgBuffer.cpp): a
 vector with a prepend area, a reader index and a writer index, compacted in
 place by an overlapping forward copy. It refines a FIFO queue of bytes.
 */
module MsgBuffers {
  import opened Prelude

  type byte = b: int | 0 <= b < 256

  const CHEAP_PREPEND: nat := 8
  const EXTRA: nat := 65536
  const INITIAL_SIZE: nat := 1024

  /** The unsigned 32-bit number that four bytes spell in network order. */
  function BigEndian(s: seq<byte>): (n: nat)
    requires |s| == 4
    ensures n < 0x1_0000_0000
  {
    var b0: nat, b1: nat, b2: nat, b3: nat := s[0], s[1], s[2], s[3];
    ((b0 * 256 + b1) * 256 + b2) * 256 + b3
  }

  function ToBigEndian(n: nat): (s: seq<byte>)
    requires n < 0x1_0000_0000
    ensures |s| == 4
  {
    [n / 0x100_0000, n / 0x1_0000 % 256, n / 256 % 256, n % 256]
  }

  /** Network order: the first byte counts most. */
  ghost predicate Spells(s: seq<byte>, n: nat) {
    && |s| >= 4
    && n / 0x100_0000 == s[0] && n / 0x1_0000 % 0x100 == s[1] && n / 0x100 % 0x100 == s[2] && n % 0x100 == s[3]
  }

  lemma BigEndianSpells(s: seq<byte>)
    requires |s| == 4
    ensures Spells(s, BigEndian(s))
  {
    var b0: nat, b1: nat, b2: nat, b3: nat := s[0], s[1], s[2], s[3];
    var high := b0 * 256 + b1;
    var most := high * 256 + b2;
    var n := most * 256 + b3;
    assert n / 256 == most && n % 256 == b3 && most / 256 == high && most % 256 == b2;
    assert n / 0x1_0000 == high && n / 0x100_0000 == b0 && high % 256 == b1;
  }

  lemma BigEndianRoundTrip(n: nat)
    requires n < 0x1_0000_0000
    ensures BigEndian(ToBigEndian(n)) == n
  {
    var a, b := n / 256, n / 0x1_0000;
    assert n == a * 256 + n % 256;
    assert a / 256 == b && a == b * 256 + a % 256;
    assert b / 256 == n / 0x100_0000 && b == b / 256 * 256 + b % 256;
  }

  class MsgBuffer {
    var data: array<byte>
    var reader: nat
    var writer: nat

    /** Size of the initial vector, and the largest amount of content that was ever asked to fit. */
    ghost const initial: nat
    ghost var peak: nat

    ghost predicate Valid()
      reads this, data
    {
      && CHEAP_PREPEND <= reader <= writer <= data.Length
      && writer - reader <= peak
      && data.Length <= Max(CHEAP_PREPEND + initial, CHEAP_PREPEND - 1 + 2 * peak)
    }

    /** The readable bytes, oldest first. */
    ghost function Contents(): seq<byte>
      requires Valid()
      reads this, data
    {
      data[reader..writer]
    }

    constructor (initialSize: nat)
      ensures Valid() && fresh(data) && Contents() == []
      ensures initial == initialSize && peak == 0 && data.Length == 8 + initialSize
      ensures reader == writer == 8
    {
      data := new byte[CHEAP_PREPEND + initialSize](_ => 0);
      reader, writer := CHEAP_PREPEND, CHEAP_PREPEND;
      initial, peak := initialSize, 0;
    }

    function ReadableBytes(): (n: nat)
      requires Valid()
      reads this, data
      ensures n == |Contents()|
    {
      writer - reader
    }

    function WritableBytes(): nat
      requires Valid()
      reads this, data
    {
      data.Length - writer
    }

    method Retrieve(len: nat)
      requires Valid() && len <= ReadableBytes()
      modifies this`reader, this`writer
      ensures Valid() && Contents() == old(Contents())[len..]
      ensures (reader, writer) == if len < old(ReadableBytes()) then (old(reader) + len, old(writer)) else (8, 8)
    {
      if len < ReadableBytes() {
        reader := reader + len;
      } else {
        RetrieveAll();
      }
    }

    method RetrieveAll()
      requires Valid()
      modifies this`reader, this`writer
      ensures Valid() && Contents() == [] && reader == writer == 8 && WritableBytes() == data.Length - 8
    {
      reader, writer := CHEAP_PREPEND, CHEAP_PREPEND;
    }

    method RetrieveAsString(len: nat) returns (result: seq<byte>)
      requires Valid() && len <= ReadableBytes()
      modifies this`reader, this`writer
      ensures Valid() && result == old(Contents())[..len] && Contents() == old(Contents())[len..]
      ensures (reader, writer) == if len < old(ReadableBytes()) then (old(reader) + len, old(writer)) else (8, 8)
    {
      result := data[reader..reader + len];
      assert result == Contents()[..len];
      Retrieve(len);
    }

    /**
     Makes room for `len` more bytes. The vector is reallocated only if even
     compaction would not do: only if prepend area, content and `len` together
     exceed it.
     */
    method EnsureWritableBytes(len: nat)
      requires Valid()
      modifies this, data
      ensures Valid() && Contents() == old(Contents()) && WritableBytes() >= len
      ensures peak == Max(old(peak), |Contents()| + len)
      ensures data == old(data) || fresh(data)
      ensures data == old(data) <==> 8 + |Contents()| + len <= old(data.Length)
      ensures data != old(data) ==> data.Length == old(writer) + len
      ensures reader == if old(writer) + len > old(data.Length) == data.Length then 8 else old(reader)
    {
      peak := Max(peak, writer - reader + len);
      if WritableBytes() < len {
        MakeSpace(len);
      }
    }

    method MakeSpace(len: nat)
      requires Valid() && WritableBytes() < len && |Contents()| + len <= peak
      modifies this`data, this`reader, this`writer, data
      ensures Valid() && Contents() == old(Contents()) && WritableBytes() >= len
      ensures data == old(data) || fresh(data)
      ensures data == old(data) <==> 8 + |Contents()| + len <= old(data.Length)
      ensures if data == old(data) then reader == 8 else reader == old(reader) && data.Length == old(writer) + len
    {
      if WritableBytes() + reader < len + CHEAP_PREPEND {
        Resize(writer + len);
      } else {
        assert CHEAP_PREPEND < reader;  // the source's assert
        var readable := writer - reader;
        CopyForward(reader, writer, CHEAP_PREPEND);
        reader := CHEAP_PREPEND;
        writer := reader + readable;
      }
    }

    /** `vector::resize` to a larger size. */
    method Resize(size: nat)
      requires size > data.Length
      modifies this`data
      ensures fresh(data) && data.Length == size
      ensures forall k :: 0 <= k < old(data.Length) ==> data[k] == old(data[k])
    {
      var bigger := new byte[size](_ => 0);
      for i := 0 to data.Length
        invariant data == old(data)
        invariant forall k :: 0 <= k < i ==> bigger[k] == data[k]
        invariant forall k :: 0 <= k < data.Length ==> data[k] == old(data[k])
      {
        bigger[i] := data[i];
      }
      data := bigger;
    }

    /** `std::copy` to the left: source and destination may overlap. */
    method CopyForward(first: nat, last: nat, dest: nat)
      requires dest <= first <= last <= data.Length
      modifies data
      ensures data[dest..dest + (last - first)] == old(data[first..last])
      ensures data[..dest] == old(data[..dest])
    {
      var i := 0;
      while first + i < last
        invariant first + i <= last
        invariant forall k :: dest <= k < dest + i ==> data[k] == old(data[..])[k + (first - dest)]
        invariant forall k :: first + i <= k < last ==> data[k] == old(data[k])
        invariant forall k :: 0 <= k < dest ==> data[k] == old(data[k])
      {
        data[dest + i] := data[first + i];
        i := i + 1;
      }
    }

    method Append(bytes: seq<byte>)
      requires Valid()
      modifies this, data
      ensures Valid() && Contents() == old(Contents()) + bytes
      ensures peak == Max(old(peak), |Contents()|)
      ensures data == old(data) || fresh(data)
      ensures data.Length == if 8 + |Contents()| > old(data.Length) then old(writer) + |bytes| else old(data.Length)
      ensures reader == if old(writer) + |bytes| > old(data.Length) == data.Length then 8 else old(reader)
    {
      EnsureWritableBytes(|bytes|);
      WriteAt(writer, bytes);
      HasWritten(|bytes|);
    }

    /** Bytes stored from `at` on, by `std::copy` or by the kernel. */
    method WriteAt(at: nat, bytes: seq<byte>)
      requires at + |bytes| <= data.Length
      modifies data
      ensures data[..at] == old(data[..at]) && data[at..at + |bytes|] == bytes
      ensures data[at + |bytes|..] == old(data[at + |bytes|..])
    {
      for i := 0 to |bytes|
        invariant data[..at] == old(data[..at]) && data[at..at + i] == bytes[..i]
        invariant data[at + |bytes|..] == old(data[at + |bytes|..])
      {
        data[at + i] := bytes[i];
      }
    }

    /** The caller has stored `len` bytes behind the content. */
    method HasWritten(len: nat)
      requires Valid() && len <= WritableBytes()
      modifies this`writer, this`peak
      ensures Valid() && Contents() == old(Contents()) + old(data[writer..writer + len])
      ensures peak == Max(old(peak), |Contents()|)
    {
      writer := writer + len;
      peak := Max(peak, writer - reader);
    }

    method Unwrite(len: nat)
      requires Valid() && len <= ReadableBytes()
      modifies this`writer
      ensures Valid() && Contents() == old(Contents())[..|old(Contents())| - len]
    {
      assert data[reader..writer - len] == Contents()[..|Contents()| - len];
      writer := writer - len;
    }

    /** Zero when fewer than four bytes are there. */
    function PeekInt32(): (n: nat)
      requires Valid()
      reads this, data
      ensures n == if |Contents()| < 4 then 0 else BigEndian(Contents()[..4])
      ensures |Contents()| >= 4 ==> Spells(Contents(), n)
    {
      if ReadableBytes() < 4 then 0
      else
        assert Contents()[..4] == data[reader..reader + 4];
        BigEndianSpells(data[reader..reader + 4]);
        BigEndian(data[reader..reader + 4])
    }

    method ReadInt32() returns (n: nat)
      requires Valid() && 4 <= ReadableBytes()
      modifies this`reader, this`writer
      ensures Valid() && n == BigEndian(old(Contents())[..4]) && Contents() == old(Contents())[4..]
      ensures Spells(old(Contents()), n)
      ensures (reader, writer) == if old(ReadableBytes()) > 4 then (old(reader) + 4, old(writer)) else (8, 8)
    {
      n := PeekInt32();
      Retrieve(4);
    }

    /** How many bytes `readv` is offered room for. */
    function Offered(): (n: nat)
      requires Valid()
      reads this, data
      ensures n == if data.Length - writer < 65536 then data.Length - writer + 65536 else data.Length - writer
    {
      WritableBytes() + if WritableBytes() < EXTRA then EXTRA else 0
    }

    /**
     One `readv` into the writable area and, if that is small, a second
     buffer on the stack. `received` is what the kernel delivers; an error
     delivers nothing and leaves the buffer alone.
     */
    method ReadFd(failed: bool, received: seq<byte>) returns (n: int)
      requires Valid() && |received| <= Offered()
      modifies this, data
      ensures Valid() && (data == old(data) || fresh(data))
      ensures n == if failed then -1 else |received|
      ensures Contents() == old(Contents()) + if failed then [] else received
      ensures peak == if failed then old(peak) else Max(old(peak), |Contents()|)
      ensures !failed ==>
                && data.Length == (
                     if 8 + |Contents()| > old(data.Length) then old(writer) + |received| else old(data.Length))
                && reader == if old(writer) + |received| > old(data.Length) == data.Length then 8 else old(reader)
      ensures failed ==> data == old(data) && reader == old(reader) && writer == old(writer)
    {
      var writable := WritableBytes();
      if failed {
        return -1;
      }
      n := |received|;
      if n <= writable {
        WriteAt(writer, received);
        HasWritten(n);
      } else {
        ReadSpilling(received);
      }
    }

    /** The kernel filled the writable area and put the rest into the second buffer. */
    method ReadSpilling(received: seq<byte>)
      requires Valid() && |received| > WritableBytes()
      modifies this, data
      ensures Valid() && (data == old(data) || fresh(data))
      ensures Contents() == old(Contents()) + received && peak == Max(old(peak), |Contents()|)
      ensures data.Length == if 8 + |Contents()| > old(data.Length) then old(writer) + |received| else old(data.Length)
      ensures reader == if old(data.Length) == data.Length then 8 else old(reader)
    {
      var writable := WritableBytes();
      var first, second := received[..writable], received[writable..];
      FillTail(first);
      Append(second);
      assert received == first + second;
      assert old(Contents()) + first + second == old(Contents()) + (first + second);
    }

    method FillTail(bytes: seq<byte>)
      requires Valid() && |bytes| == WritableBytes()
      modifies `writer, `peak, data
      ensures Valid() && Contents() == old(Contents()) + bytes && peak == Max(old(peak), |Contents()|)
    {
      WriteAt(writer, bytes);
      HasWritten(|bytes|);
    }
  }
}
