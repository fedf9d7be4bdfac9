/**
  An endian-aware cursor over a byte device. The device is an immutable
  in-memory byte sequence; the cursor position and the byte-order flag are
  the reader's mutable state.
*/
module ByteReader {
  import opened Common
  import opened Endian

  class Reader {
    /** The device contents. */
    const dev: seq<Byte>
    /** The device position: the index of the next byte to be read. */
    var position: nat
    var littleEndian: bool

    ghost predicate Valid()
      reads this
    {
      position <= |dev|
    }

    /** A reader positioned at the start of `dev`; little-endian unless told otherwise. */
    constructor (dev: seq<Byte>, littleEndian: bool := true)
      ensures Valid()
      ensures this.dev == dev && position == 0 && this.littleEndian == littleEndian
    {
      this.dev := dev;
      position := 0;
      this.littleEndian := littleEndian;
    }

    function IsLittleEndian(): bool
      reads this
    {
      littleEndian
    }

    method SetLittleEndian(little: bool)
      modifies this`littleEndian
      ensures littleEndian == little
    {
      littleEndian := little;
    }

    function Pos(): (p: nat)
      reads this
      requires Valid()
      ensures p <= |dev|
    {
      position
    }

    /** True exactly when no byte is left to read. */
    predicate AtEnd()
      reads this
      requires Valid()
    {
      position == |dev|
    }

    /**
      The shared fixed-width getter: reads `width` bytes at the current
      position and decodes them in the current byte order. All or nothing:
      when fewer than `width` bytes remain, `ok` is false and the position
      does not move.
    */
    method GetUInt(width: nat) returns (v: nat, ok: bool)
      requires Valid()
      modifies this`position
      ensures Valid()
      ensures ok <==> old(position) + width <= |dev|
      ensures ok ==> v == Decode(dev[old(position)..old(position) + width], littleEndian)
      ensures ok ==> v < Pow256(width)
      ensures ok ==> position == old(position) + width
      ensures !ok ==> v == 0 && position == old(position)
    {
      if |dev| - position < width {
        return 0, false;
      }
      ghost var bytes := dev[position..position + width];
      v := 0;
      if littleEndian {
        var i := width;
        while i > 0
          invariant 0 <= i <= width
          invariant v == DecodeLE(bytes[i..])
        {
          i := i - 1;
          assert bytes[i..][1..] == bytes[i + 1..];
          v := dev[position + i] + 0x100 * v;
        }
        assert bytes[0..] == bytes;
        DecodeLEBound(bytes);
      } else {
        var i := 0;
        while i < width
          invariant 0 <= i <= width
          invariant v == DecodeBE(bytes[..i])
        {
          assert bytes[..i + 1][..i] == bytes[..i];
          v := v * 0x100 + dev[position + i];
          i := i + 1;
        }
        assert bytes[..width] == bytes;
        DecodeBEBound(bytes);
      }
      position := position + width;
      ok := true;
    }

    /** Reads 2 bytes = 16 bits. */
    method GetUInt16() returns (v: UInt16, ok: bool)
      requires Valid()
      modifies this`position
      ensures Valid()
      ensures ok <==> old(position) + 2 <= |dev|
      ensures ok ==> v == Decode(dev[old(position)..old(position) + 2], littleEndian)
      ensures position == if ok then old(position) + 2 else old(position)
    {
      var n;
      n, ok := GetUInt(2);
      v := n;
    }

    /** Reads 4 bytes = 32 bits. */
    method GetUInt32() returns (v: UInt32, ok: bool)
      requires Valid()
      modifies this`position
      ensures Valid()
      ensures ok <==> old(position) + 4 <= |dev|
      ensures ok ==> v == Decode(dev[old(position)..old(position) + 4], littleEndian)
      ensures position == if ok then old(position) + 4 else old(position)
    {
      var n;
      n, ok := GetUInt(4);
      v := n;
    }

    /** Reads 8 bytes = 64 bits. */
    method GetUInt64() returns (v: UInt64, ok: bool)
      requires Valid()
      modifies this`position
      ensures Valid()
      ensures ok <==> old(position) + 8 <= |dev|
      ensures ok ==> v == Decode(dev[old(position)..old(position) + 8], littleEndian)
      ensures position == if ok then old(position) + 8 else old(position)
    {
      var n;
      n, ok := GetUInt(8);
      v := n;
    }

    /** Reads one byte as an unsigned char; fails at the end of the device. */
    method GetUChar() returns (c: Byte, ok: bool)
      requires Valid()
      modifies this`position
      ensures Valid()
      ensures ok <==> old(position) < |dev|
      ensures ok ==> c == dev[old(position)] && position == old(position) + 1
      ensures !ok ==> c == 0 && position == old(position)
    {
      if position == |dev| {
        return 0, false;
      }
      c := dev[position];
      position := position + 1;
      ok := true;
    }

    /** Reads one byte as a signed char; fails at the end of the device. */
    method GetChar() returns (c: Int8, ok: bool)
      requires Valid()
      modifies this`position
      ensures Valid()
      ensures ok <==> old(position) < |dev|
      ensures ok ==> c == SignedChar(dev[old(position)]) && position == old(position) + 1
      ensures !ok ==> c == 0 && position == old(position)
    {
      var b;
      b, ok := GetUChar();
      c := SignedChar(b);
    }

    /** The byte `GetUChar` would return, without moving the position. */
    method PeekUChar() returns (c: Byte, ok: bool)
      requires Valid()
      ensures ok <==> position < |dev|
      ensures ok ==> c == dev[position]
      ensures !ok ==> c == 0
    {
      if position == |dev| {
        return 0, false;
      }
      c := dev[position];
      ok := true;
    }

    /** The char `GetChar` would return, without moving the position. */
    method PeekChar() returns (c: Int8, ok: bool)
      requires Valid()
      ensures ok <==> position < |dev|
      ensures ok ==> c == SignedChar(dev[position])
      ensures !ok ==> c == 0
    {
      var b;
      b, ok := PeekUChar();
      c := SignedChar(b);
    }

    /** Up to `max` bytes from the current position; fewer at the end of the device, none for a negative `max`. */
    method Read(max: int) returns (bytes: seq<Byte>)
      requires Valid()
      modifies this`position
      ensures Valid()
      ensures |bytes| == if max <= 0 then 0 else Min(max, |dev| - old(position))
      ensures position == old(position) + |bytes|
      ensures bytes == dev[old(position)..position]
    {
      var n := if max <= 0 then 0 else Min(max, |dev| - position);
      bytes := dev[position..position + n];
      position := position + n;
    }

    /** Absolute repositioning; fails, leaving the position as it was, outside `[0, |dev|]`. */
    method Seek(p: int) returns (ok: bool)
      requires Valid()
      modifies this`position
      ensures Valid()
      ensures ok <==> 0 <= p <= |dev|
      ensures position == if ok then p else old(position)
    {
      if p < 0 || p > |dev| {
        return false;
      }
      position := p;
      ok := true;
    }

    /** True exactly when the next `|list|` bytes equal `list`; never moves the position. */
    method PeekList(list: seq<Byte>) returns (matches: bool)
      requires Valid()
      ensures matches <==> position + |list| <= |dev| && dev[position..position + |list|] == list
    {
      if |dev| - position < |list| {
        return false;
      }
      var i := 0;
      while i < |list|
        invariant 0 <= i <= |list|
        invariant dev[position..position + i] == list[..i]
      {
        if dev[position + i] != list[i] {
          assert dev[position..position + |list|][i] != list[i];
          return false;
        }
        i := i + 1;
      }
      assert list[..i] == list;
      matches := true;
    }
  }

  /**
    Peeking twice and then getting yield the same byte and the same success
    flag, and only the get moves the position.
  */
  method PeekThenGet(dev: seq<Byte>, start: nat)
    returns (first: Int8, ok1: bool, second: Int8, ok2: bool, got: Int8, ok: bool, moved: int)
    requires start <= |dev|
    ensures ok1 == ok2 == ok
    ensures ok <==> start < |dev|
    ensures ok ==> first == second == got == SignedChar(dev[start]) && moved == 1
    ensures !ok ==> moved == 0
  {
    var r := new Reader(dev);
    var sought := r.Seek(start);
    first, ok1 := r.PeekChar();
    second, ok2 := r.PeekChar();
    got, ok := r.GetChar();
    moved := r.Pos() - start;
  }

  /** The 64-bit Mach-O magic as it is stored on a little-endian machine. */
  const MachOMagic64: seq<Byte> := [0xcf, 0xfa, 0xed, 0xfe]

  /**
    A reader built without a byte order reads little-endian; switching the
    order and reading the same bytes again gives the byte-reversed value.
  */
  method ReadMagic() returns (little: UInt32, big: UInt32, signature: bool, atEnd: bool)
    ensures little == 0xfeedfacf && big == 0xcffaedfe
    ensures signature && atEnd
  {
    var r := new Reader(MachOMagic64);
    signature := r.PeekList(MachOMagic64);
    var ok;
    little, ok := r.GetUInt32();
    atEnd := r.AtEnd();
    ok := r.Seek(0);
    r.SetLittleEndian(false);
    big, ok := r.GetUInt32();
    assert MachOMagic64[0..4] == MachOMagic64;
    calc {
      DecodeBE(MachOMagic64);
      { assert MachOMagic64[..3] == [0xcf, 0xfa, 0xed]; }
      DecodeBE([0xcf, 0xfa, 0xed]) * 0x100 + 0xfe;
      { assert [0xcf, 0xfa, 0xed][..2] == [0xcf, 0xfa]; }
      (DecodeBE([0xcf, 0xfa]) * 0x100 + 0xed) * 0x100 + 0xfe;
      { assert [0xcf, 0xfa][..1] == [0xcf]; assert [0xcf][..0] == []; }
      0xcffaedfe;
    }
  }

  function Min(a: int, b: int): int
  {
    if a < b then a else b
  }
}
