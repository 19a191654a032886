/**
 * The network packet buffer the pipe code writes to and reads from: a byte
 * sequence with a reader index. Writes append; reads start at the reader
 * index and move it past what they consumed. A 32-bit int travels as four
 * bytes, most significant first.
 */
module PacketBuf {
  import opened JavaInt
  import opened Wrappers

  type Byte = x: int | 0 <= x < 256

  /** The unsigned 32-bit number whose bytes, most significant first, are `b0`..`b3`. */
  function BigEndian(b0: Byte, b1: Byte, b2: Byte, b3: Byte): Word
  {
    b0 as int * 0x100_0000 + b1 as int * 0x1_0000 + b2 as int * 0x100 + b3 as int
  }

  /** The four bytes `writeInt` appends for `v`, most significant first. */
  function EncodeInt(v: Int32): (bytes: seq<Byte>)
    ensures |bytes| == 4
    ensures BigEndian(bytes[0], bytes[1], bytes[2], bytes[3]) == Bits(v)
  {
    var u := Bits(v);
    var b3, q0 := u % 0x100, u / 0x100;
    var b2, q1 := q0 % 0x100, q0 / 0x100;
    var b1, b0 := q1 % 0x100, q1 / 0x100;
    DivModUnique(u, 0x100_0000, b0, b1 * 0x1_0000 + b2 * 0x100 + b3);
    [b0, b1, b2, b3]
  }

  /** What `readInt` returns at the start of `bytes`: nothing when fewer than four bytes remain. */
  function DecodeInt(bytes: seq<Byte>): (v: Option<Int32>)
    ensures v.Some? <==> |bytes| >= 4
    ensures v.Some? ==> Bits(v.value) == BigEndian(bytes[0], bytes[1], bytes[2], bytes[3])
  {
    if |bytes| < 4 then None
    else Some(Wrap32(BigEndian(bytes[0], bytes[1], bytes[2], bytes[3])))
  }

  /** An int read back after it was written is the int written, whatever follows it. */
  lemma IntRoundTrip(v: Int32, rest: seq<Byte>)
    ensures DecodeInt(EncodeInt(v) + rest) == Some(v)
  {
    var bytes := EncodeInt(v) + rest;
    assert bytes[..4] == EncodeInt(v);
    assert Wrap32(Bits(v)) == v;
  }

  class PacketByteBuf {
    /** Every byte written so far. */
    var bytes: seq<Byte>
    /** Where the next read starts. */
    var readerIndex: nat

    ghost predicate Valid()
      reads this
    {
      readerIndex <= |bytes|
    }

    /** The bytes not read yet. */
    function Readable(): (unread: seq<Byte>)
      reads this
      requires Valid()
      ensures |unread| == |bytes| - readerIndex
    {
      bytes[readerIndex..]
    }

    constructor (contents: seq<Byte>)
      ensures Valid()
      ensures bytes == contents && readerIndex == 0
    {
      bytes := contents;
      readerIndex := 0;
    }

    /** Appends `data`; the reader index stays. */
    method WriteBytes(data: seq<Byte>)
      requires Valid()
      modifies this
      ensures Valid()
      ensures bytes == old(bytes) + data && readerIndex == old(readerIndex)
      ensures Readable() == old(Readable()) + data
    {
      bytes := bytes + data;
    }

    /** `writeInt`: appends the four bytes of `v`. */
    method WriteInt(v: Int32)
      requires Valid()
      modifies this
      ensures Valid()
      ensures bytes == old(bytes) + EncodeInt(v) && readerIndex == old(readerIndex)
      ensures Readable() == old(Readable()) + EncodeInt(v)
    {
      WriteBytes(EncodeInt(v));
    }

    /** Moves the reader index past `n` unread bytes. */
    method Skip(n: nat)
      requires Valid() && n <= |Readable()|
      modifies this
      ensures Valid()
      ensures bytes == old(bytes) && readerIndex == old(readerIndex) + n
      ensures Readable() == old(Readable())[n..]
    {
      readerIndex := readerIndex + n;
    }

    /**
     * `readInt`: the next four bytes as an int, and the reader index moved
     * past them. With fewer than four bytes left the read fails and the
     * index stays.
     */
    method ReadInt() returns (v: Option<Int32>)
      requires Valid()
      modifies this
      ensures Valid() && bytes == old(bytes)
      ensures v == DecodeInt(old(Readable()))
      ensures readerIndex == old(readerIndex) + (if v.Some? then 4 else 0)
    {
      v := DecodeInt(Readable());
      if v.Some? {
        Skip(4);
      }
    }
  }
}
