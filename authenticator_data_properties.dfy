/**
 * What the authenticator-data decoder promises: the flag decomposition and
 * its inverse, the exact failure conditions, which bytes land in which
 * field, and a serializer that the decoder inverts.
 */
module AuthenticatorDataProperties {
  import opened Wrappers
  import opened Bytes
  import opened AuthenticatorDataDecoder

  // ---------------------------------------------------------------------
  // Flags

  /** A flag's name is in the set exactly when its mask bit is set. */
  lemma FlagNamesMembership(flags: byte, fl: Flag)
    ensures fl in FlagNames(flags) <==> flags & fl.Mask() != 0
  {
  }

  /** The masks of the names present add up to the flags byte itself. */
  lemma MaskSumOfFlagNames(flags: byte)
    ensures MaskSum(FlagNames(flags)) == flags as int
  {
  }

  lemma FlagsByteOfFlagNames(flags: byte)
    ensures FlagsByte(FlagNames(flags)) == flags
  {
  }

  /** Setting exactly the bits of a chosen set of flags decodes back to that set. */
  lemma FlagNamesOfFlagsByte(s: set<Flag>)
    ensures FlagNames(FlagsByte(s)) == s
  {
    var f := FlagsByte(s);
    forall fl: Flag ensures fl in FlagNames(f) <==> fl in s {
      FlagNamesMembership(f, fl);
      match fl
      case UP => assert f & 0x01 != 0 <==> UP in s;
      case RFU1 => assert f & 0x02 != 0 <==> RFU1 in s;
      case UV => assert f & 0x04 != 0 <==> UV in s;
      case RFU3 => assert f & 0x08 != 0 <==> RFU3 in s;
      case RFU4 => assert f & 0x10 != 0 <==> RFU4 in s;
      case RFU5 => assert f & 0x20 != 0 <==> RFU5 in s;
      case AT => assert f & 0x40 != 0 <==> AT in s;
      case ED => assert f & 0x80 != 0 <==> ED in s;
    }
  }

  /** Each flag's name reads back as that flag, so no two flags share a name. */
  lemma FlagOfNameOfFlag(fl: Flag)
    ensures FlagOfName(fl.Name()) == Some(fl)
  {
    match fl
    case UP => case RFU1 => case UV => case RFU3 =>
    case RFU4 => case RFU5 => case AT => case ED =>
  }

  /**
   * A flag's name is among the strings of the set exactly when the flag is
   * in it; in particular `flagsSet.has("AT")` is `AT in flagsSet`.
   */
  lemma NameSetMembership(s: set<Flag>, fl: Flag)
    ensures fl.Name() in NameSet(s) <==> fl in s
  {
    if fl.Name() in NameSet(s) {
      var g :| g in s && g.Name() == fl.Name();
      FlagOfNameOfFlag(g);
      FlagOfNameOfFlag(fl);
    }
  }

  // ---------------------------------------------------------------------
  // Failure

  /**
   * The decoder fails exactly when the signature counter cannot be read
   * (fewer than 37 bytes), or AT is set and the credential ID length cannot
   * be read (fewer than 55 bytes). No other length, in particular no
   * credential ID that runs past the end, makes it fail.
   */
  lemma DecodeFailsIff(data: seq<byte>)
    ensures Decode(data).Failure? <==>
      |data| < AAGUID_OFFSET || (HasAttestedCredentialData(data[FLAGS_OFFSET]) && |data| < CREDENTIAL_ID_OFFSET)
    ensures Decode(data) == Failure(SignCountOutOfRange) <==> |data| < AAGUID_OFFSET
  {
  }

  // ---------------------------------------------------------------------
  // The fixed header

  lemma DecodeHeader(data: seq<byte>)
    requires Decode(data).Success?
    ensures var ad := Decode(data).value;
      && |ad.rpIdHash| == RP_ID_HASH_LENGTH && ad.rpIdHash == data[..32]
      && ad.flags == data[32]
      && ad.signCount == data[33] as int * 0x100_0000 + data[34] as int * 0x1_0000 + data[35] as int * 0x100 + data[36] as int
      && ad.signCount < TWO_POW_32
      && ad.flagsSet == FlagNames(ad.flags)
  {
    BE32Bound(data[SIGN_COUNT_OFFSET..AAGUID_OFFSET]);
  }

  /** The attested credential data is present exactly when the AT bit is set. */
  lemma AttestedPresentIff(data: seq<byte>)
    requires Decode(data).Success?
    ensures var ad := Decode(data).value;
      && (ad.attestedCredentialData.Some? <==> data[32] & 0x40 != 0)
      && (ad.attestedCredentialData.Some? <==> AT in ad.flagsSet)
  {
  }

  /** With AT clear the decoder reads nothing beyond byte 36. */
  lemma HeaderOnlyWhenAtClear(a: seq<byte>, b: seq<byte>)
    requires |a| >= AAGUID_OFFSET && |b| >= AAGUID_OFFSET && a[..AAGUID_OFFSET] == b[..AAGUID_OFFSET]
    requires !HasAttestedCredentialData(a[FLAGS_OFFSET])
    ensures Decode(a) == Decode(b)
  {
    assert a[..RP_ID_HASH_LENGTH] == a[..AAGUID_OFFSET][..RP_ID_HASH_LENGTH];
    assert b[..RP_ID_HASH_LENGTH] == b[..AAGUID_OFFSET][..RP_ID_HASH_LENGTH];
    assert a[SIGN_COUNT_OFFSET..AAGUID_OFFSET] == a[..AAGUID_OFFSET][SIGN_COUNT_OFFSET..];
    assert b[SIGN_COUNT_OFFSET..AAGUID_OFFSET] == b[..AAGUID_OFFSET][SIGN_COUNT_OFFSET..];
    assert a[FLAGS_OFFSET] == a[..AAGUID_OFFSET][FLAGS_OFFSET];
    assert b[FLAGS_OFFSET] == b[..AAGUID_OFFSET][FLAGS_OFFSET];
  }

  /** Toggling bit 0x80 toggles ED and leaves every other name, AT included, as it was. */
  lemma FlagNamesToggleEd(flags: byte)
    ensures FlagNames(flags ^ ED.Mask()) - {ED} == FlagNames(flags) - {ED}
    ensures ED in FlagNames(flags ^ ED.Mask()) <==> ED !in FlagNames(flags)
    ensures HasAttestedCredentialData(flags ^ ED.Mask()) == HasAttestedCredentialData(flags)
  {
  }

  /** The attested credential data depends only on the bytes from 37 on. */
  lemma AttestedCredentialDataOfTail(a: seq<byte>, b: seq<byte>)
    requires |a| == |b| >= AAGUID_OFFSET && a[AAGUID_OFFSET..] == b[AAGUID_OFFSET..]
    ensures DecodeAttestedCredentialData(a) == DecodeAttestedCredentialData(b)
  {
    forall i | AAGUID_OFFSET <= i < |a|
      ensures a[i] == b[i]
    {
      assert a[i] == a[AAGUID_OFFSET..][i - AAGUID_OFFSET];
      assert b[i] == b[AAGUID_OFFSET..][i - AAGUID_OFFSET];
    }
    if |a| >= CREDENTIAL_ID_OFFSET {
      assert a[AAGUID_OFFSET..CREDENTIAL_ID_LENGTH_OFFSET] == b[AAGUID_OFFSET..CREDENTIAL_ID_LENGTH_OFFSET];
      assert a[CREDENTIAL_ID_LENGTH_OFFSET..CREDENTIAL_ID_OFFSET] == b[CREDENTIAL_ID_LENGTH_OFFSET..CREDENTIAL_ID_OFFSET];
      var end := CREDENTIAL_ID_OFFSET + BE16(a[CREDENTIAL_ID_LENGTH_OFFSET..CREDENTIAL_ID_OFFSET]);
      if end <= |a| {
        assert a[CREDENTIAL_ID_OFFSET..end] == b[CREDENTIAL_ID_OFFSET..end];
        assert a[end..] == b[end..];
      } else {
        assert a[CREDENTIAL_ID_OFFSET..] == b[CREDENTIAL_ID_OFFSET..];
      }
    }
  }

  /**
   * The ED bit is only a name in the set: toggling it changes `flags` and
   * `flagsSet` (by ED alone, FlagNamesToggleEd) and nothing else, so no
   * bytes are consumed for extensions.
   */
  lemma EdConsumesNothing(data: seq<byte>)
    requires |data| >= AAGUID_OFFSET
    ensures var flags' := data[FLAGS_OFFSET] ^ ED.Mask();
      Decode(data[FLAGS_OFFSET := flags']) ==
        match Decode(data)
        case Failure(e) => Failure(e)
        case Success(ad) => Success(ad.(flags := flags', flagsSet := FlagNames(flags')))
  {
    var flags := data[FLAGS_OFFSET];
    var toggled := data[FLAGS_OFFSET := flags ^ ED.Mask()];
    assert toggled[..RP_ID_HASH_LENGTH] == data[..RP_ID_HASH_LENGTH];
    assert toggled[SIGN_COUNT_OFFSET..AAGUID_OFFSET] == data[SIGN_COUNT_OFFSET..AAGUID_OFFSET];
    assert toggled[AAGUID_OFFSET..] == data[AAGUID_OFFSET..];
    FlagNamesToggleEd(flags);
    AttestedCredentialDataOfTail(toggled, data);
  }

  // ---------------------------------------------------------------------
  // The attested credential data

  /** A decoded attested credential data block is the one read after the header. */
  lemma DecodedAttestedCredentialData(data: seq<byte>)
    requires Decode(data).Success? && Decode(data).value.attestedCredentialData.Some?
    ensures |data| >= CREDENTIAL_ID_OFFSET && HasAttestedCredentialData(data[FLAGS_OFFSET])
    ensures DecodeAttestedCredentialData(data) == Success(Decode(data).value.attestedCredentialData.value)
  {
  }

  lemma AttestedFields(data: seq<byte>)
    requires Decode(data).Success? && Decode(data).value.attestedCredentialData.Some?
    ensures var acd := Decode(data).value.attestedCredentialData.value;
      && |data| >= CREDENTIAL_ID_OFFSET
      && acd.aaguid == data[37..53] && |acd.aaguid| == 16
      && acd.credentialIdLength == data[53] as int * 0x100 + data[54] as int
      && acd.credentialIdLength < TWO_POW_16
  {
    DecodedAttestedCredentialData(data);
    BE16Bound(data[CREDENTIAL_ID_LENGTH_OFFSET..CREDENTIAL_ID_OFFSET]);
  }

  lemma CompleteAttestedCredentialData(data: seq<byte>)
    requires |data| >= CREDENTIAL_ID_OFFSET
    requires CREDENTIAL_ID_OFFSET + BE16(data[CREDENTIAL_ID_LENGTH_OFFSET..CREDENTIAL_ID_OFFSET]) <= |data|
    ensures var L := BE16(data[CREDENTIAL_ID_LENGTH_OFFSET..CREDENTIAL_ID_OFFSET]);
      && L < TWO_POW_16
      && DecodeAttestedCredentialData(data)
         == Success(AttestedCredentialData(data[37..53], L, data[55..55 + L], data[55 + L..]))
      && data[37..53] + U16BE(L) + data[55..55 + L] + data[55 + L..] == data[37..]
  {
    var lengthBytes := data[CREDENTIAL_ID_LENGTH_OFFSET..CREDENTIAL_ID_OFFSET];
    U16BEOfBE16(lengthBytes);
    Reassemble(data, 37, 53, 55, 55 + BE16(lengthBytes));
  }

  /** Four adjacent slices laid end to end give the suffix they cover. */
  lemma Reassemble(s: seq<byte>, i: nat, j: nat, k: nat, l: nat)
    requires i <= j <= k <= l <= |s|
    ensures s[i..j] + s[j..k] + s[k..l] + s[l..] == s[i..]
  {
    assert s[i..j] + s[j..k] == s[i..k];
    assert s[i..k] + s[k..l] == s[i..l];
    assert s[i..l] + s[l..] == s[i..];
  }

  /**
   * When the declared length runs past the end, the slices clamp: the
   * credential ID is what is left after byte 54 and the public key is empty.
   */
  lemma TruncatedCredential(data: seq<byte>)
    requires Decode(data).Success? && Decode(data).value.attestedCredentialData.Some?
    requires CREDENTIAL_ID_OFFSET + Decode(data).value.attestedCredentialData.value.credentialIdLength > |data|
    ensures var acd := Decode(data).value.attestedCredentialData.value;
      && acd.credentialId == data[55..]
      && |acd.credentialId| < acd.credentialIdLength
      && acd.credentialPublicKey == []
  {
  }

  // ---------------------------------------------------------------------
  // Serialization, the decoder's inverse

  /** A record that some authenticator data decodes to in full. */
  predicate WellFormed(ad: AuthenticatorData)
  {
    && |ad.rpIdHash| == RP_ID_HASH_LENGTH
    && ad.signCount < TWO_POW_32
    && ad.flagsSet == FlagNames(ad.flags)
    && (ad.attestedCredentialData.Some? <==> HasAttestedCredentialData(ad.flags))
    && (ad.attestedCredentialData.Some? ==>
          var acd := ad.attestedCredentialData.value;
          && |acd.aaguid| == CREDENTIAL_ID_LENGTH_OFFSET - AAGUID_OFFSET
          && acd.credentialIdLength < TWO_POW_16
          && |acd.credentialId| == acd.credentialIdLength)
  }

  /** The bytes of a record, laid out as section 6.1 of Web Authentication Level 2 describes. */
  function Serialize(ad: AuthenticatorData): seq<byte>
    requires WellFormed(ad)
  {
    ad.rpIdHash + [ad.flags] + U32BE(ad.signCount)
    + match ad.attestedCredentialData
      case None => []
      case Some(acd) => acd.aaguid + U16BE(acd.credentialIdLength) + acd.credentialId + acd.credentialPublicKey
  }

  /** Decoding a serialized record gives the record back. */
  lemma DecodeSerialize(ad: AuthenticatorData)
    requires WellFormed(ad)
    ensures Decode(Serialize(ad)) == Success(ad)
  {
    var data := Serialize(ad);
    var header := ad.rpIdHash + [ad.flags] + U32BE(ad.signCount);
    assert data[..RP_ID_HASH_LENGTH] == ad.rpIdHash;
    assert data[FLAGS_OFFSET] == ad.flags;
    assert data[SIGN_COUNT_OFFSET..AAGUID_OFFSET] == U32BE(ad.signCount);
    BE32OfU32BE(ad.signCount);
    if ad.attestedCredentialData.Some? {
      var acd := ad.attestedCredentialData.value;
      var L := acd.credentialIdLength;
      assert data == header + acd.aaguid + U16BE(L) + acd.credentialId + acd.credentialPublicKey;
      assert data[AAGUID_OFFSET..CREDENTIAL_ID_LENGTH_OFFSET] == acd.aaguid;
      assert data[CREDENTIAL_ID_LENGTH_OFFSET..CREDENTIAL_ID_OFFSET] == U16BE(L);
      BE16OfU16BE(L);
      assert data[CREDENTIAL_ID_OFFSET..CREDENTIAL_ID_OFFSET + L] == acd.credentialId;
      assert data[CREDENTIAL_ID_OFFSET + L..] == acd.credentialPublicKey;
    }
  }

  /** The fields of `ad` are the ones the decoder reads from `data`. */
  predicate ReadFrom(data: seq<byte>, ad: AuthenticatorData)
  {
    && |data| >= AAGUID_OFFSET
    && ad.rpIdHash == data[..RP_ID_HASH_LENGTH]
    && ad.flags == data[FLAGS_OFFSET]
    && ad.signCount == BE32(data[SIGN_COUNT_OFFSET..AAGUID_OFFSET])
    && ad.flagsSet == FlagNames(ad.flags)
    && (ad.attestedCredentialData.Some? <==> HasAttestedCredentialData(ad.flags))
    && (ad.attestedCredentialData.Some? ==>
          DecodeAttestedCredentialData(data) == Success(ad.attestedCredentialData.value))
  }

  lemma DecodeReadFrom(data: seq<byte>)
    requires Decode(data).Success?
    ensures ReadFrom(data, Decode(data).value)
  {
  }

  /** The header of a record read from `data` serializes to bytes [0, 37). */
  lemma SerializeHeaderReadFrom(data: seq<byte>, ad: AuthenticatorData)
    requires ReadFrom(data, ad)
    ensures ad.signCount < TWO_POW_32
    ensures ad.rpIdHash + [ad.flags] + U32BE(ad.signCount) == data[..AAGUID_OFFSET]
  {
    BE32Bound(data[SIGN_COUNT_OFFSET..AAGUID_OFFSET]);
    U32BEOfBE32(data[SIGN_COUNT_OFFSET..AAGUID_OFFSET]);
    assert data[..AAGUID_OFFSET] == data[..RP_ID_HASH_LENGTH] + [data[FLAGS_OFFSET]] + data[SIGN_COUNT_OFFSET..AAGUID_OFFSET];
  }

  /** The same as SerializeDecode, for any record whose fields were read from `data`. */
  lemma SerializeReadFrom(data: seq<byte>, ad: AuthenticatorData)
    requires ReadFrom(data, ad)
    ensures WellFormed(ad) <==>
      (ad.attestedCredentialData.None? ||
       CREDENTIAL_ID_OFFSET + ad.attestedCredentialData.value.credentialIdLength <= |data|)
    ensures WellFormed(ad) ==>
      Serialize(ad) == if ad.attestedCredentialData.None? then data[..AAGUID_OFFSET] else data
  {
    SerializeHeaderReadFrom(data, ad);
    var header := ad.rpIdHash + [ad.flags] + U32BE(ad.signCount);
    if ad.attestedCredentialData.Some? {
      var acd := ad.attestedCredentialData.value;
      var L := BE16(data[CREDENTIAL_ID_LENGTH_OFFSET..CREDENTIAL_ID_OFFSET]);
      BE16Bound(data[CREDENTIAL_ID_LENGTH_OFFSET..CREDENTIAL_ID_OFFSET]);
      if CREDENTIAL_ID_OFFSET + L <= |data| {
        CompleteAttestedCredentialData(data);
        assert acd == AttestedCredentialData(data[37..53], L, data[55..55 + L], data[55 + L..]);
        assert WellFormed(ad);
        assert Serialize(ad) == header + (acd.aaguid + U16BE(L) + acd.credentialId + acd.credentialPublicKey);
        assert data == data[..AAGUID_OFFSET] + data[AAGUID_OFFSET..];
      } else {
        assert acd.credentialId == data[CREDENTIAL_ID_OFFSET..];
        assert |acd.credentialId| != acd.credentialIdLength;
      }
    }
  }

  /**
   * A decoded record is well formed exactly when the buffer holds the
   * whole credential ID (or AT is clear), and then serializing it gives
   * back the bytes the decoder read: the 37-byte header alone when AT is
   * clear, the whole buffer when it is set.
   */
  lemma SerializeDecode(data: seq<byte>)
    requires Decode(data).Success?
    ensures var ad := Decode(data).value;
      WellFormed(ad) <==>
        (ad.attestedCredentialData.None? ||
         CREDENTIAL_ID_OFFSET + ad.attestedCredentialData.value.credentialIdLength <= |data|)
    ensures var ad := Decode(data).value;
      WellFormed(ad) ==>
        Serialize(ad) == if ad.attestedCredentialData.None? then data[..AAGUID_OFFSET] else data
  {
    DecodeReadFrom(data);
    SerializeReadFrom(data, Decode(data).value);
  }

  /**
   * A 148-byte buffer with AT set, a credential ID length of 16 and a
   * 77-byte key blob decodes to that ID and that blob.
   */
  lemma EndToEndScenario(data: seq<byte>)
    requires |data| == CREDENTIAL_ID_OFFSET + 16 + 77
    requires HasAttestedCredentialData(data[FLAGS_OFFSET])
    requires data[53] == 0 && data[54] == 16
    ensures Decode(data).Success?
    ensures var acd := Decode(data).value.attestedCredentialData;
      && acd.Some?
      && acd.value.credentialIdLength == 16
      && acd.value.credentialId == data[55..71]
      && |acd.value.credentialPublicKey| == 77 && acd.value.credentialPublicKey == data[71..]
  {
    DecodeFailsIff(data);
    AttestedPresentIff(data);
    AttestedFields(data);
    DecodedAttestedCredentialData(data);
    CompleteAttestedCredentialData(data);
  }
}
