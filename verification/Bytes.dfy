/**
 Bytes, the unsigned integers of the wire formats, and the growing write side
 of Licq::Buffer (licq/src/buffer.cpp).
 */
module Bytes {
  type Byte = b: int | 0 <= b < 0x100

  type UInt16 = n: int | 0 <= n < 0x1_0000

  type UInt32 = n: int | 0 <= n < 0x1_0000_0000

  // ----- integers as the pack functions lay them out -----

  function FromLe16(s: seq<Byte>): (n: UInt16)
    requires |s| >= 2
  {
    (s[0] as int) + 0x100 * (s[1] as int)
  }

  function FromBe16(s: seq<Byte>): (n: UInt16)
    requires |s| >= 2
  {
    0x100 * (s[0] as int) + (s[1] as int)
  }

  function FromLe32(s: seq<Byte>): (n: UInt32)
    requires |s| >= 4
  {
    (s[0] as int) + 0x100 * (s[1] as int) + 0x1_0000 * (s[2] as int) + 0x100_0000 * (s[3] as int)
  }

  function Le16(n: UInt16): (s: seq<Byte>)
    ensures |s| == 2 && FromLe16(s) == n
  {
    [n % 0x100, n / 0x100]
  }

  function Be16(n: UInt16): (s: seq<Byte>)
    ensures |s| == 2 && FromBe16(s) == n
  {
    [n / 0x100, n % 0x100]
  }

  function Le32(n: UInt32): (s: seq<Byte>)
    ensures |s| == 4 && FromLe32(s) == n
  {
    Le32Digits(n);
    [n % 0x100, n / 0x100 % 0x100, n / 0x1_0000 % 0x100, n / 0x100_0000]
  }

  lemma Le32Digits(n: UInt32)
    ensures n == n % 0x100 + 0x100 * (n / 0x100 % 0x100) + 0x1_0000 * (n / 0x1_0000 % 0x100) + 0x100_0000 * (n / 0x100_0000)
  {
    assert n / 0x100 / 0x100 == n / 0x1_0000;
    assert n / 0x1_0000 / 0x100 == n / 0x100_0000;
  }

  // An unsigned long stored in an unsigned short.
  function Low16(n: UInt32): (r: UInt16)
    ensures n < 0x1_0000 ==> r == n
  {
    n % 0x1_0000
  }

  // A C string: what c_str() shows of a string, up to its first NUL.
  function CStr(s: seq<Byte>): (r: seq<Byte>)
    ensures |r| <= |s| && r == s[..|r|]
    ensures forall i :: 0 <= i < |r| ==> r[i] != 0
    ensures |r| < |s| ==> s[|r|] == 0
  {
    if s == [] || s[0] == 0 then [] else [s[0]] + CStr(s[1..])
  }

  // packShortNullStringLE: a length that counts the terminating NUL, the bytes, the NUL.
  function PackedString(s: seq<Byte>): (r: seq<Byte>)
    ensures |r| == |CStr(s)| + 3
  {
    Le16(PackedLength(s)) + CStr(s) + [0]
  }

  function PackedLength(s: seq<Byte>): (n: UInt16)
    ensures |CStr(s)| < 0xFFFF ==> n == |CStr(s)| + 1
  {
    (|CStr(s)| + 1) % 0x1_0000
  }

  /**
   Licq::Buffer while it is being filled. A pack that does not fit is dropped
   with a warning and leaves the buffer as it was.
   */
  class Buffer {
    var data: seq<Byte>
    const capacity: nat

    constructor (size: nat)
      ensures data == [] && capacity == size
    {
      data, capacity := [], size;
    }

    method PackRaw(bytes: seq<Byte>)
      modifies this
      ensures data == if |old(data)| + |bytes| <= capacity then old(data) + bytes else old(data)
    {
      if capacity < |data| + |bytes| {
        return;
      }
      data := data + bytes;
    }

    method PackChar(b: Byte)
      modifies this
      ensures data == if |old(data)| + 1 <= capacity then old(data) + [b] else old(data)
    {
      PackRaw([b]);
    }

    method PackUnsignedShortBE(n: UInt16)
      modifies this
      ensures data == if |old(data)| + 2 <= capacity then old(data) + Be16(n) else old(data)
    {
      PackRaw(Be16(n));
    }

    method PackUnsignedShort(n: UInt16)
      modifies this
      ensures data == if |old(data)| + 2 <= capacity then old(data) + Le16(n) else old(data)
    {
      PackRaw(Le16(n));
    }

    method PackUnsignedLong(n: UInt32)
      modifies this
      ensures data == if |old(data)| + 4 <= capacity then old(data) + Le32(n) else old(data)
    {
      PackRaw(Le32(n));
    }

    method PackString(s: seq<Byte>)
      modifies this
      ensures data == if |old(data)| + |PackedString(s)| <= capacity
                      then old(data) + PackedString(s) else old(data)
    {
      PackRaw(PackedString(s));
    }
  }
}
