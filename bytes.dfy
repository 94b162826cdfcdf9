/**
 * Byte-level helpers of the decoder: the clamping `slice` of a JavaScript
 * `Uint8Array`, the big-endian reads of a `DataView`, and the array
 * concatenation helper `concatenateUint8Arrays`.
 */
module Bytes {
  import opened Wrappers

  /** One element of a `Uint8Array`. */
  type byte = bv8

  const TWO_POW_16: nat := 0x1_0000
  const TWO_POW_32: nat := 0x1_0000_0000

  function Min(a: nat, b: nat): nat { if a <= b then a else b }

  /**
   * `s.slice(begin, end)` for non-negative arguments: both indices are
   * clamped to the length, and an empty slice results when the clamped
   * begin is not before the clamped end. It never fails.
   */
  function Slice(s: seq<byte>, begin: nat, end: nat): (r: seq<byte>)
    ensures |r| == if Min(begin, |s|) <= Min(end, |s|) then Min(end, |s|) - Min(begin, |s|) else 0
    ensures forall i :: 0 <= i < |r| ==> begin + i < |s| && r[i] == s[begin + i]
    ensures begin <= end <= |s| ==> r == s[begin..end]
  {
    if begin >= |s| || end <= begin then [] else s[begin..Min(end, |s|)]
  }

  /** `s.slice(begin, begin + len)` and `s.slice(begin + len)` from a `begin` inside `s`. */
  lemma ClampedSlices(s: seq<byte>, begin: nat, len: nat)
    requires begin <= |s|
    ensures Slice(s, begin, begin + len) == if begin + len <= |s| then s[begin..begin + len] else s[begin..]
    ensures SliceFrom(s, begin + len) == if begin + len <= |s| then s[begin + len..] else []
  {
  }

  /** `s.slice(begin)`: from `begin`, clamped, to the end. */
  function SliceFrom(s: seq<byte>, begin: nat): (r: seq<byte>)
    ensures begin <= |s| ==> r == s[begin..]
    ensures begin >= |s| ==> r == []
  {
    Slice(s, begin, |s|)
  }

  /** The unsigned integer whose big-endian (network order) encoding is `b`. */
  function BE16(b: seq<byte>): nat
    requires |b| == 2
  {
    b[0] as nat * 0x100 + b[1] as nat
  }

  function BE32(b: seq<byte>): nat
    requires |b| == 4
  {
    b[0] as nat * 0x100_0000 + b[1] as nat * 0x1_0000 + b[2] as nat * 0x100 + b[3] as nat
  }

  /** Big-endian encodings: the inverses of BE16 and BE32. */
  function U16BE(n: nat): (r: seq<byte>)
    requires n < TWO_POW_16
    ensures |r| == 2
  {
    [(n / 0x100) as byte, (n % 0x100) as byte]
  }

  function U32BE(n: nat): (r: seq<byte>)
    requires n < TWO_POW_32
    ensures |r| == 4
  {
    [(n / 0x100 / 0x100 / 0x100) as byte, (n / 0x100 / 0x100 % 0x100) as byte, (n / 0x100 % 0x100) as byte, (n % 0x100) as byte]
  }

  lemma BE16Bound(b: seq<byte>)
    requires |b| == 2
    ensures BE16(b) < TWO_POW_16
  {
  }

  lemma BE32Bound(b: seq<byte>)
    requires |b| == 4
    ensures BE32(b) < TWO_POW_32
  {
  }

  /** A byte converted to an integer converts back to the same byte. */
  lemma ByteOfInt(b: byte, k: int)
    requires k == b as int
    ensures k as byte == b
  {
  }

  /** An integer in byte range converted to a byte converts back to itself. */
  lemma IntOfByte(k: int)
    requires 0 <= k < 0x100
    ensures (k as byte) as int == k
  {
    assert k % 0x100 == k;
  }

  /** Division by 256 is determined by quotient and remainder. */
  lemma DivMod256(n: int, q: int, r: int)
    requires 0 <= r < 0x100 && n == q * 0x100 + r
    ensures n / 0x100 == q && n % 0x100 == r
  {
  }

  lemma Digits16(n: int, hi: int, lo: int)
    requires 0 <= hi < 0x100 && 0 <= lo < 0x100
    requires n == hi * 0x100 + lo
    ensures n / 0x100 == hi && n % 0x100 == lo
  {
    DivMod256(n, hi, lo);
  }

  lemma Digits32(n: int, b0: int, b1: int, b2: int, b3: int)
    requires 0 <= b0 < 0x100 && 0 <= b1 < 0x100 && 0 <= b2 < 0x100 && 0 <= b3 < 0x100
    requires n == b0 * 0x100_0000 + b1 * 0x1_0000 + b2 * 0x100 + b3
    ensures n / 0x100 / 0x100 / 0x100 == b0 && n / 0x100 / 0x100 % 0x100 == b1
    ensures n / 0x100 % 0x100 == b2 && n % 0x100 == b3
  {
    var q1 := b0 * 0x1_0000 + b1 * 0x100 + b2;
    DivMod256(n, q1, b3);
    var q2 := b0 * 0x100 + b1;
    DivMod256(q1, q2, b2);
    DivMod256(q2, b0, b1);
  }

  lemma BE16OfU16BE(n: nat)
    requires n < TWO_POW_16
    ensures BE16(U16BE(n)) == n
  {
    IntOfByte(n / 0x100);
    IntOfByte(n % 0x100);
  }

  lemma U16BEOfBE16(b: seq<byte>)
    requires |b| == 2
    ensures BE16(b) < TWO_POW_16 && U16BE(BE16(b)) == b
  {
    var n := BE16(b);
    Digits16(n, b[0] as int, b[1] as int);
    ByteOfInt(b[0], n / 0x100);
    ByteOfInt(b[1], n % 0x100);
  }

  lemma BE32OfU32BE(n: nat)
    requires n < TWO_POW_32
    ensures BE32(U32BE(n)) == n
  {
    var q1 := n / 0x100;
    var q2 := q1 / 0x100;
    var q3 := q2 / 0x100;
    assert n == q1 * 0x100 + n % 0x100;
    assert q1 == q2 * 0x100 + q1 % 0x100;
    assert q2 == q3 * 0x100 + q2 % 0x100;
    assert q3 < 0x100;
    IntOfByte(q3);
    IntOfByte(q2 % 0x100);
    IntOfByte(q1 % 0x100);
    IntOfByte(n % 0x100);
  }

  lemma U32BEOfBE32(b: seq<byte>)
    requires |b| == 4
    ensures BE32(b) < TWO_POW_32 && U32BE(BE32(b)) == b
  {
    var n := BE32(b);
    Digits32(n, b[0] as int, b[1] as int, b[2] as int, b[3] as int);
    ByteOfInt(b[0], n / 0x100 / 0x100 / 0x100);
    ByteOfInt(b[1], n / 0x100 / 0x100 % 0x100);
    ByteOfInt(b[2], n / 0x100 % 0x100);
    ByteOfInt(b[3], n % 0x100);
  }

  /** The `RangeError` a `DataView` read throws when it would run past the buffer. */
  datatype DataViewError = RangeError

  /**
   * `new DataView(buffer).getUint16(byteOffset, false)`: the big-endian
   * 16-bit unsigned integer at `byteOffset`, or a RangeError when fewer than
   * two bytes remain from there.
   */
  function GetUint16(buffer: seq<byte>, byteOffset: nat): (r: Result<nat, DataViewError>)
    ensures r.Success? <==> byteOffset + 2 <= |buffer|
    ensures r.Success? ==> r.value == BE16(buffer[byteOffset..byteOffset + 2]) && r.value < TWO_POW_16
  {
    if byteOffset + 2 > |buffer| then Failure(RangeError)
    else
      var field := buffer[byteOffset..byteOffset + 2];
      BE16Bound(field);
      Success(BE16(field))
  }

  /** `new DataView(buffer).getUint32(byteOffset, false)`, likewise for four bytes. */
  function GetUint32(buffer: seq<byte>, byteOffset: nat): (r: Result<nat, DataViewError>)
    ensures r.Success? <==> byteOffset + 4 <= |buffer|
    ensures r.Success? ==> r.value == BE32(buffer[byteOffset..byteOffset + 4]) && r.value < TWO_POW_32
  {
    if byteOffset + 4 > |buffer| then Failure(RangeError)
    else
      var field := buffer[byteOffset..byteOffset + 4];
      BE32Bound(field);
      Success(BE32(field))
  }

  /**
   * `concatenateUint8Arrays(a, b)`: allocates a zero-filled array of length
   * `a.Length + b.Length`, copies `a` to its front and `b` after it.
   */
  method Concatenate(a: array<byte>, b: array<byte>) returns (r: array<byte>)
    ensures fresh(r)
    ensures r.Length == a.Length + b.Length
    ensures r[..a.Length] == a[..] && r[a.Length..] == b[..]
    ensures r[..] == a[..] + b[..]
  {
    r := new byte[a.Length + b.Length];
    forall i | 0 <= i < a.Length {
      r[i] := a[i];
    }
    forall i | 0 <= i < b.Length {
      r[a.Length + i] := b[i];
    }
    assert r[..a.Length] == a[..];
    assert r[a.Length..] == b[..];
    assert r[..] == r[..a.Length] + r[a.Length..];
  }
}
