/**
 * Bytes and the little-endian integer views the wire engine reads and
 * writes through a DataView, with the ECMAScript number conversions
 * (ToInt32, ToUint32, ToUint16) that the DataView setters apply.
 */
module Bytes {

  type u8 = x: int | 0 <= x < 0x100

  const U16_LIMIT: int := 0x1_0000
  const U32_LIMIT: int := 0x1_0000_0000
  const I32_MIN: int := -0x8000_0000
  const I32_LIMIT: int := 0x8000_0000

  predicate IsU16(x: int) { 0 <= x < U16_LIMIT }
  predicate IsU32(x: int) { 0 <= x < U32_LIMIT }
  predicate IsI32(x: int) { I32_MIN <= x < I32_LIMIT }

  /** ECMAScript ToUint32 on an integral number: reduction modulo 2^32. */
  function ToUint32(x: int): (r: int)
    ensures IsU32(r)
    ensures IsU32(x) ==> r == x
    ensures (x - r) % U32_LIMIT == 0
  {
    x % U32_LIMIT
  }

  /** ECMAScript ToUint16 on an integral number: reduction modulo 2^16. */
  function ToUint16(x: int): (r: int)
    ensures IsU16(r)
    ensures IsU16(x) ==> r == x
    ensures (x - r) % U16_LIMIT == 0
  {
    x % U16_LIMIT
  }

  /** ECMAScript ToInt32 on an integral number: two's complement wrap-around. */
  function ToInt32(x: int): (r: int)
    ensures IsI32(r)
    ensures IsI32(x) ==> r == x
    ensures (x - r) % U32_LIMIT == 0
  {
    var m := x % U32_LIMIT;
    if m < I32_LIMIT then m else m - U32_LIMIT
  }

  /** The two little-endian bytes of a 16-bit value. */
  function LeU16(v: int): (r: seq<u8>)
    requires IsU16(v)
    ensures |r| == 2
  {
    [v % 0x100, v / 0x100]
  }

  /** The four little-endian bytes of a 32-bit value. */
  function LeU32(v: int): (r: seq<u8>)
    requires IsU32(v)
    ensures |r| == 4
  {
    [v % 0x100, v / 0x100 % 0x100, v / 0x100 / 0x100 % 0x100, v / 0x100 / 0x100 / 0x100]
  }

  /** DataView.getUint16(at, true). */
  function U16At(s: seq<u8>, at: int): (v: int)
    requires 0 <= at && at + 2 <= |s|
    ensures IsU16(v)
  {
    (s[at] as int) + 0x100 * (s[at + 1] as int)
  }

  /** DataView.getUint32(at, true). */
  function U32At(s: seq<u8>, at: int): (v: int)
    requires 0 <= at && at + 4 <= |s|
    ensures IsU32(v)
  {
    (s[at] as int) + 0x100 * (s[at + 1] as int) + 0x1_0000 * (s[at + 2] as int) + 0x100_0000 * (s[at + 3] as int)
  }

  /** DataView.getInt32(at, true). */
  function I32At(s: seq<u8>, at: int): (v: int)
    requires 0 <= at && at + 4 <= |s|
    ensures IsI32(v)
  {
    ToInt32(U32At(s, at))
  }

  /** Reading back the four bytes written for a 32-bit value gives the value. */
  lemma U32RoundTrip(s: seq<u8>, at: int, v: int)
    requires IsU32(v) && 0 <= at && at + 4 <= |s|
    requires s[at..at + 4] == LeU32(v)
    ensures U32At(s, at) == v
  {
    var q1 := v / 0x100;
    var q2 := q1 / 0x100;
    var q3 := q2 / 0x100;
    assert v == v % 0x100 + 0x100 * q1;
    assert q1 == q1 % 0x100 + 0x100 * q2;
    assert q2 == q2 % 0x100 + 0x100 * q3;
    assert s[at] == v % 0x100 && s[at + 1] == q1 % 0x100;
    assert s[at + 2] == q2 % 0x100 && s[at + 3] == q3;
  }

  /** Reading back the two bytes written for a 16-bit value gives the value. */
  lemma U16RoundTrip(s: seq<u8>, at: int, v: int)
    requires IsU16(v) && 0 <= at && at + 2 <= |s|
    requires s[at..at + 2] == LeU16(v)
    ensures U16At(s, at) == v
  {
    assert s[at] == v % 0x100 && s[at + 1] == v / 0x100;
  }

  /** Writing back a value read from four bytes reproduces those bytes. */
  lemma U32Bytes(s: seq<u8>, at: int)
    requires 0 <= at && at + 4 <= |s|
    ensures LeU32(U32At(s, at)) == s[at..at + 4]
  {
    var v := U32At(s, at);
    var b0, b1, b2, b3 := s[at] as int, s[at + 1] as int, s[at + 2] as int, s[at + 3] as int;
    assert v == b0 + 0x100 * (b1 + 0x100 * (b2 + 0x100 * b3));
    assert v / 0x100 == b1 + 0x100 * (b2 + 0x100 * b3);
    assert v / 0x100 / 0x100 == b2 + 0x100 * b3;
    assert v / 0x100 / 0x100 / 0x100 == b3;
  }

  /** An int32 written with setInt32 (the bytes of its ToUint32) is read back by getInt32. */
  lemma I32RoundTrip(s: seq<u8>, at: int, k: int)
    requires IsI32(k) && 0 <= at && at + 4 <= |s|
    requires s[at..at + 4] == LeU32(ToUint32(k))
    ensures I32At(s, at) == k
  {
    assert ToUint32(k) == if k >= 0 then k else k + U32_LIMIT;
    U32RoundTrip(s, at, ToUint32(k));
  }

  /** `buf` with `bytes` stored at offset `at` (a typed-array `set`). */
  function Put(buf: seq<u8>, at: int, bytes: seq<u8>): (r: seq<u8>)
    requires 0 <= at && at + |bytes| <= |buf|
    ensures |r| == |buf|
  {
    buf[..at] + bytes + buf[at + |bytes|..]
  }

  /** After a `set`, the stored region holds the new bytes and everything around it is as before. */
  lemma PutContents(buf: seq<u8>, at: int, bytes: seq<u8>)
    requires 0 <= at && at + |bytes| <= |buf|
    ensures Put(buf, at, bytes)[at..at + |bytes|] == bytes
    ensures Put(buf, at, bytes)[..at] == buf[..at] && Put(buf, at, bytes)[at + |bytes|..] == buf[at + |bytes|..]
  {
  }

  /** Byte by byte: inside the stored region the new bytes, elsewhere the old ones. */
  lemma PutIndex(buf: seq<u8>, at: int, bytes: seq<u8>, i: int)
    requires 0 <= at && at + |bytes| <= |buf| && 0 <= i < |buf|
    ensures Put(buf, at, bytes)[i] == if at <= i < at + |bytes| then bytes[i - at] else buf[i]
  {
    if i < at {
      assert Put(buf, at, bytes)[i] == buf[..at][i];
    } else if i < at + |bytes| {
      assert Put(buf, at, bytes)[i] == (buf[..at] + bytes)[i];
    }
  }
}
