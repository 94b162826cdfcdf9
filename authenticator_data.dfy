/**
 * The WebAuthn authenticator-data decoder `parseAuthenticatorData`
 * (W3C Web Authentication Level 2, section 6.1 "Authenticator Data" and
 * section 6.5.1 "Attested Credential Data").
 *
 * Layout, all multi-byte integers big-endian:
 *   [0, 32)        rpIdHash
 *   [32, 33)       flags
 *   [33, 37)       signCount
 * and, when the AT flag is set,
 *   [37, 53)       aaguid
 *   [53, 55)       credentialIdLength L
 *   [55, 55 + L)   credentialId
 *   [55 + L, end)  credentialPublicKey (a COSE key, not parsed here)
 *
 * The input is the whole `ArrayBuffer` behind the `Uint8Array`: the decoder
 * builds its `DataView` on `authData.buffer`. At a non-zero offset that
 * `DataView` reads the buffer's bytes 33..36 rather than those of `authData`.
 * At offset 0 it reads the right bytes, but when the view is shorter than its
 * buffer the read can succeed past the end of `authData` instead of failing.
 */
module AuthenticatorDataDecoder {
  import opened Wrappers
  import opened Bytes

  const RP_ID_HASH_LENGTH: nat := 32
  const FLAGS_OFFSET: nat := 32
  const SIGN_COUNT_OFFSET: nat := 33
  /** End of the fixed header: 32 + 1 + 4 bytes. */
  const AAGUID_OFFSET: nat := 37
  const CREDENTIAL_ID_LENGTH_OFFSET: nat := 53
  const CREDENTIAL_ID_OFFSET: nat := 55

  /** The eight bits of the flags byte, named as the decoder names them. */
  datatype Flag = UP | RFU1 | UV | RFU3 | RFU4 | RFU5 | AT | ED
  {
    function Mask(): byte
    {
      match this
      case UP => 0x01
      case RFU1 => 0x02
      case UV => 0x04
      case RFU3 => 0x08
      case RFU4 => 0x10
      case RFU5 => 0x20
      case AT => 0x40
      case ED => 0x80
    }

    /** The string the decoder adds to its `flagsSet`. */
    function Name(): string
    {
      match this
      case UP => "UP"
      case RFU1 => "RFU1"
      case UV => "UV"
      case RFU3 => "RFU3"
      case RFU4 => "RFU4"
      case RFU5 => "RFU5"
      case AT => "AT"
      case ED => "ED"
    }
  }

  /** The flag a name stands for, or None for any other string. */
  function FlagOfName(name: string): Option<Flag>
  {
    if name == "UP" then Some(UP)
    else if name == "RFU1" then Some(RFU1)
    else if name == "UV" then Some(UV)
    else if name == "RFU3" then Some(RFU3)
    else if name == "RFU4" then Some(RFU4)
    else if name == "RFU5" then Some(RFU5)
    else if name == "AT" then Some(AT)
    else if name == "ED" then Some(ED)
    else None
  }

  /** The decoder's `flagsSet` as the set of strings it holds. */
  function NameSet(s: set<Flag>): set<string>
  {
    set fl | fl in s :: fl.Name()
  }

  const ALL_FLAGS: set<Flag> := {UP, RFU1, UV, RFU3, RFU4, RFU5, AT, ED}

  /** The names of the bits that are set in `flags`. */
  function FlagNames(flags: byte): set<Flag>
  {
    set fl | fl in ALL_FLAGS && flags & fl.Mask() != 0
  }

  /** The flags byte with exactly the bits of `s` set: the inverse of FlagNames. */
  function FlagsByte(s: set<Flag>): byte
  {
    (if UP in s then 0x01 else 0) | (if RFU1 in s then 0x02 else 0)
    | (if UV in s then 0x04 else 0) | (if RFU3 in s then 0x08 else 0)
    | (if RFU4 in s then 0x10 else 0) | (if RFU5 in s then 0x20 else 0)
    | (if AT in s then 0x40 else 0) | (if ED in s then 0x80 else 0)
  }

  /** The sum, as an integer, of the masks of the flags in `s`. */
  function MaskSum(s: set<Flag>): nat
  {
    (if UP in s then 0x01 else 0) + (if RFU1 in s then 0x02 else 0)
    + (if UV in s then 0x04 else 0) + (if RFU3 in s then 0x08 else 0)
    + (if RFU4 in s then 0x10 else 0) + (if RFU5 in s then 0x20 else 0)
    + (if AT in s then 0x40 else 0) + (if ED in s then 0x80 else 0)
  }

  datatype AttestedCredentialData = AttestedCredentialData(
    aaguid: seq<byte>,
    credentialIdLength: nat,
    credentialId: seq<byte>,
    credentialPublicKey: seq<byte>)

  /** The object `parseAuthenticatorData` returns; `None` stands for `null`. */
  datatype AuthenticatorData = AuthenticatorData(
    rpIdHash: seq<byte>,
    flags: byte,
    signCount: nat,
    flagsSet: set<Flag>,
    attestedCredentialData: Option<AttestedCredentialData>)

  /**
   * The two `DataView` reads that can throw a RangeError: the signature
   * counter (`getUint32` at offset 33) and the credential ID length
   * (`getUint16` on the slice [53, 55)).
   */
  datatype DecodeError = SignCountOutOfRange | CredentialIdLengthOutOfRange

  predicate HasAttestedCredentialData(flags: byte)
  {
    flags & AT.Mask() != 0
  }

  /**
   * The attested credential data that follows the 37-byte header, or the
   * RangeError of the credential-ID-length read. The credential ID and the
   * public key are clamped to what the buffer holds.
   */
  function DecodeAttestedCredentialData(data: seq<byte>): Result<AttestedCredentialData, DecodeError>
  {
    if |data| < CREDENTIAL_ID_OFFSET then Failure(CredentialIdLengthOutOfRange)
    else
      var len := BE16(data[CREDENTIAL_ID_LENGTH_OFFSET..CREDENTIAL_ID_OFFSET]);
      var end := CREDENTIAL_ID_OFFSET + len;
      var credentialId := if end <= |data| then data[CREDENTIAL_ID_OFFSET..end] else data[CREDENTIAL_ID_OFFSET..];
      var publicKey := if end <= |data| then data[end..] else [];
      Success(AttestedCredentialData(data[AAGUID_OFFSET..CREDENTIAL_ID_LENGTH_OFFSET], len, credentialId, publicKey))
  }

  /** The decoder's result, declaratively: which bytes go to which field. */
  function Decode(data: seq<byte>): Result<AuthenticatorData, DecodeError>
  {
    if |data| < AAGUID_OFFSET then Failure(SignCountOutOfRange)
    else
      var flags := data[FLAGS_OFFSET];
      var header := AuthenticatorData(data[..RP_ID_HASH_LENGTH], flags,
                                       BE32(data[SIGN_COUNT_OFFSET..AAGUID_OFFSET]), FlagNames(flags), None);
      if !HasAttestedCredentialData(flags) then Success(header)
      else
        match DecodeAttestedCredentialData(data)
        case Failure(e) => Failure(e)
        case Success(acd) => Success(header.(attestedCredentialData := Some(acd)))
  }

  /** The eight conditional `flagsSet.add` calls of the decoder. */
  method BuildFlagsSet(flags: byte) returns (flagsSet: set<Flag>)
    ensures forall fl: Flag :: fl in flagsSet <==> flags & fl.Mask() != 0
  {
    flagsSet := {};
    flagsSet := flagsSet + if flags & 0x01 != 0 then {UP} else {};
    flagsSet := flagsSet + if flags & 0x02 != 0 then {RFU1} else {};
    flagsSet := flagsSet + if flags & 0x04 != 0 then {UV} else {};
    flagsSet := flagsSet + if flags & 0x08 != 0 then {RFU3} else {};
    flagsSet := flagsSet + if flags & 0x10 != 0 then {RFU4} else {};
    flagsSet := flagsSet + if flags & 0x20 != 0 then {RFU5} else {};
    flagsSet := flagsSet + if flags & 0x40 != 0 then {AT} else {};
    flagsSet := flagsSet + if flags & 0x80 != 0 then {ED} else {};
  }

  /** A set of flags holding exactly the bits set in `flags` is FlagNames(flags). */
  lemma FlagNamesOfMembership(flags: byte, s: set<Flag>)
    requires forall fl: Flag :: fl in s <==> flags & fl.Mask() != 0
    ensures s == FlagNames(flags)
  {
    forall fl: Flag
      ensures fl in s <==> fl in FlagNames(flags)
    {
      assert fl in ALL_FLAGS by {
        match fl
        case UP => case RFU1 => case UV => case RFU3 =>
        case RFU4 => case RFU5 => case AT => case ED =>
      }
    }
  }

  /** The body of the decoder's `if (flagsSet.has("AT"))` branch. */
  method ReadAttestedCredentialData(authData: seq<byte>) returns (r: Result<AttestedCredentialData, DecodeError>)
    ensures r == DecodeAttestedCredentialData(authData)
  {
    var aaguid := Slice(authData, AAGUID_OFFSET, CREDENTIAL_ID_LENGTH_OFFSET);
    var credIdLenBytes := Slice(authData, CREDENTIAL_ID_LENGTH_OFFSET, CREDENTIAL_ID_OFFSET);
    var credIdLen := GetUint16(credIdLenBytes, 0);
    if credIdLen.Failure? {
      return Failure(CredentialIdLengthOutOfRange);
    }
    var len := credIdLen.value;
    // getUint16 found two bytes, so the buffer reaches byte 54
    assert |authData| >= CREDENTIAL_ID_OFFSET;
    assert credIdLenBytes[0..2] == credIdLenBytes == authData[CREDENTIAL_ID_LENGTH_OFFSET..CREDENTIAL_ID_OFFSET];
    assert len == BE16(authData[CREDENTIAL_ID_LENGTH_OFFSET..CREDENTIAL_ID_OFFSET]);
    var credentialId := Slice(authData, CREDENTIAL_ID_OFFSET, CREDENTIAL_ID_OFFSET + len);
    var credentialPublicKey := SliceFrom(authData, CREDENTIAL_ID_OFFSET + len);
    ClampedSlices(authData, CREDENTIAL_ID_OFFSET, len);
    return Success(AttestedCredentialData(aaguid, len, credentialId, credentialPublicKey));
  }

  /**
   * `parseAuthenticatorData`: reads the header, builds the flag set one bit
   * at a time, and reads the attested credential data when AT is set.
   * A thrown RangeError is a Failure.
   */
  method ParseAuthenticatorData(authData: seq<byte>) returns (r: Result<AuthenticatorData, DecodeError>)
    ensures r == Decode(authData)
  {
    var rpIdHash := Slice(authData, 0, RP_ID_HASH_LENGTH);
    var flagsBytes := Slice(authData, FLAGS_OFFSET, FLAGS_OFFSET + 1);
    var signCount := GetUint32(authData, SIGN_COUNT_OFFSET);
    if signCount.Failure? {
      return Failure(SignCountOutOfRange);
    }
    // the read at offset 33 succeeded, so byte 32 exists
    var flags := flagsBytes[0];
    var ret := AuthenticatorData(rpIdHash, flags, signCount.value, {}, None);

    var flagsSet := BuildFlagsSet(flags);
    FlagNamesOfMembership(flags, flagsSet);
    ret := ret.(flagsSet := flagsSet);

    if AT in flagsSet {
      var acd := ReadAttestedCredentialData(authData);
      if acd.Failure? {
        return Failure(acd.error);
      }
      ret := ret.(attestedCredentialData := Some(acd.value));
    }
    return Success(ret);
  }
}
