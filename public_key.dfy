/**
 * The first step of `parsePublicKey`: the uncompressed elliptic-curve point
 * `0x04 || x || y` (SEC 1 section 2.3.3) built from the x and y coordinates
 * of a COSE EC2 key (RFC 8152 section 13.1.1, labels -2 and -3).
 */
module PublicKey {
  import opened Wrappers
  import opened Bytes

  const COSE_EC2_X: int := -2
  const COSE_EC2_Y: int := -3
  /** The SEC 1 octet that introduces an uncompressed point. */
  const UNCOMPRESSED_FORM: byte := 0x04
  const P256_COORDINATE_LENGTH: nat := 32

  /** A CBOR-decoded COSE key, restricted to its byte-string values. */
  type CoseKey = map<int, seq<byte>>

  /**
   * `new Uint8Array(coseKey[key])`: the byte string under `key`; an
   * absent key reads as `undefined`, which makes an empty array.
   */
  function Coordinate(coseKey: CoseKey, key: int): seq<byte>
  {
    if key in coseKey then coseKey[key] else []
  }

  /** The point built from the x and y coordinates of a COSE key. */
  function CosePoint(coseKey: CoseKey): seq<byte>
  {
    EncodePoint(Coordinate(coseKey, COSE_EC2_X), Coordinate(coseKey, COSE_EC2_Y))
  }

  /** The uncompressed encoding of the point with coordinates `x` and `y`. */
  function EncodePoint(x: seq<byte>, y: seq<byte>): (p: seq<byte>)
    ensures |p| == 1 + |x| + |y|
    ensures p[0] == UNCOMPRESSED_FORM && p[1..1 + |x|] == x && p[1 + |x|..] == y
  {
    [UNCOMPRESSED_FORM] + x + y
  }

  /**
   * The coordinates of an uncompressed point whose two coordinates have the
   * same length (SEC 1 section 2.3.4), or None when `p` is not of that form.
   */
  function DecodePoint(p: seq<byte>): Option<(seq<byte>, seq<byte>)>
  {
    if |p| == 0 || p[0] != UNCOMPRESSED_FORM || (|p| - 1) % 2 != 0 then None
    else
      var n := (|p| - 1) / 2;
      Some((p[1..1 + n], p[1 + n..]))
  }

  /** Encoding two coordinates of equal length and decoding gives them back. */
  lemma DecodeEncodePoint(x: seq<byte>, y: seq<byte>)
    requires |x| == |y|
    ensures DecodePoint(EncodePoint(x, y)) == Some((x, y))
  {
  }

  /** Every point DecodePoint accepts is the encoding of what it returns. */
  lemma EncodeDecodePoint(p: seq<byte>)
    requires DecodePoint(p).Some?
    ensures var (x, y) := DecodePoint(p).value;
      |x| == |y| && EncodePoint(x, y) == p
  {
    var (x, y) := DecodePoint(p).value;
    assert p == [p[0]] + p[1..1 + |x|] + p[1 + |x|..];
  }

  /** For P-256 the point is 65 bytes: the form octet and two 32-byte coordinates. */
  lemma P256PointLength(x: seq<byte>, y: seq<byte>)
    requires |x| == P256_COORDINATE_LENGTH && |y| == P256_COORDINATE_LENGTH
    ensures |EncodePoint(x, y)| == 65
  {
  }

  /**
   * A missing coordinate is not an error: it contributes no bytes, so the
   * point is the form octet followed by whatever coordinate is present.
   */
  lemma MissingCoordinates(coseKey: CoseKey)
    ensures COSE_EC2_X !in coseKey ==> CosePoint(coseKey) == [UNCOMPRESSED_FORM] + Coordinate(coseKey, COSE_EC2_Y)
    ensures COSE_EC2_Y !in coseKey ==> CosePoint(coseKey) == [UNCOMPRESSED_FORM] + Coordinate(coseKey, COSE_EC2_X)
    ensures COSE_EC2_X !in coseKey && COSE_EC2_Y !in coseKey ==> CosePoint(coseKey) == [UNCOMPRESSED_FORM]
  {
    if COSE_EC2_X !in coseKey {
      assert Coordinate(coseKey, COSE_EC2_X) == [];
    }
    if COSE_EC2_Y !in coseKey {
      assert Coordinate(coseKey, COSE_EC2_Y) == [];
    }
  }

  /**
   * With both coordinates present and of equal length, the point decodes
   * back to exactly the values stored under labels -2 and -3.
   */
  lemma CosePointCoordinates(coseKey: CoseKey)
    requires COSE_EC2_X in coseKey && COSE_EC2_Y in coseKey
    requires |coseKey[COSE_EC2_X]| == |coseKey[COSE_EC2_Y]|
    ensures DecodePoint(CosePoint(coseKey)) == Some((coseKey[COSE_EC2_X], coseKey[COSE_EC2_Y]))
  {
    DecodeEncodePoint(coseKey[COSE_EC2_X], coseKey[COSE_EC2_Y]);
  }

  /** `new Uint8Array(s)`: a fresh array holding a copy of `s`. */
  method NewArray(s: seq<byte>) returns (a: array<byte>)
    ensures fresh(a)
    ensures a[..] == s
  {
    a := new byte[|s|](i requires 0 <= i < |s| => s[i]);
  }

  /**
   * `concatenateUint8Arrays(new Uint8Array([0x04]), concatenateUint8Arrays(x, y))`
   * with `x` and `y` read from labels -2 and -3 of the COSE key.
   */
  method UncompressedPoint(coseKey: CoseKey) returns (point: array<byte>)
    ensures fresh(point)
    ensures point[..] == CosePoint(coseKey)
  {
    var x := NewArray(Coordinate(coseKey, COSE_EC2_X));
    var y := NewArray(Coordinate(coseKey, COSE_EC2_Y));
    var form := NewArray([UNCOMPRESSED_FORM]);
    var xy := Concatenate(x, y);
    point := Concatenate(form, xy);
  }
}
