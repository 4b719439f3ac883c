/**
  The three BSP session keys and their derivation (Table 4c and section 2.6.4.2 of SGP.22).
 */
module BspKeys {
  import opened Bytes
  import opened Primitives
  import opened X963

  const KEY_LEN := 16

  datatype BspKeyType = SessionKeys | ProfileKeys {
    function Value(): byte {
      match this
      case SessionKeys => 0x01
      case ProfileKeys => 0x02
    }
  }

  datatype BspSessionKeys = BspSessionKeys(macChaining: bytes, sEnc: bytes, sMac: bytes)

  /** Split the key data: the initial MAC chaining value first, then S-ENC, then S-MAC. */
  function FromKeyData(keyData: bytes, keyLen: nat): Result<BspSessionKeys> {
    if |keyData| < 3 * keyLen then Err(Malformed)
    else Ok(BspSessionKeys(keyData[..keyLen], keyData[keyLen..2 * keyLen], keyData[2 * keyLen..3 * keyLen]))
  }

  function Derive(p: Suite, secret: bytes, keyType: BspKeyType, keyLen: byte, hostId: bytes, eid: bytes)
    : Result<BspSessionKeys>
  {
    var len := keyLen as nat;
    var info :- SharedInfo(keyType.Value(), keyLen, hostId, eid);
    var keyData :- KdfBytes(p, secret, info, 3 * len);
    FromKeyData(keyData, len)
  }

  /** The split for any key data: the first, second and third `keyLen` octets, where there are that many. */
  lemma SplitFollowsTable4c(keyData: bytes, keyLen: nat)
    ensures var r := FromKeyData(keyData, keyLen);
            && (r == Err(Malformed) <==> |keyData| < 3 * keyLen)
            && (r.Ok? ==>
                  && |r.value.macChaining| == |r.value.sEnc| == |r.value.sMac| == keyLen
                  && forall i | 0 <= i < keyLen ::
                       && r.value.macChaining[i] == keyData[i]
                       && r.value.sEnc[i] == keyData[keyLen + i]
                       && r.value.sMac[i] == keyData[2 * keyLen + i])
  {
  }

  /**
    Derivation succeeds exactly for key lengths 1 to 96 and identifiers of at most 255 octets.
    The key data is the hashes of secret, counter, key type, key length and the two identifiers
    after their lengths, laid end to end, and each key is its third of it, in the order of Table 4c.
   */
  lemma DeriveFollowsTable4c(
    p: Suite, secret: bytes, keyType: BspKeyType, keyLen: byte, hostId: bytes, eid: bytes)
    ensures Derive(p, secret, keyType, keyLen, hostId, eid) == Err(Malformed)
            <==> !(1 <= keyLen <= 96 && |hostId| <= 255 && |eid| <= 255)
    ensures Derive(p, secret, keyType, keyLen, hostId, eid).Ok? ==>
              var keys := Derive(p, secret, keyType, keyLen, hostId, eid).value;
              var l := keyLen as nat;
              var info := [if keyType.SessionKeys? then 0x01 else 0x02, keyLen]
                          + [|hostId| as byte] + hostId + [|eid| as byte] + eid;
              && |keys.macChaining| == |keys.sEnc| == |keys.sMac| == l
              && forall j | 0 <= j < 3 * l ::
                   (if j < l then keys.macChaining[j] else if j < 2 * l then keys.sEnc[j - l] else keys.sMac[j - 2 * l])
                   == p.sha256(secret + BigEndian32((j / 32 + 1) as u32) + info)[j % 32]
  {
    if |hostId| <= 255 && |eid| <= 255 {
      var info := SharedInfo(keyType.Value(), keyLen, hostId, eid).value;
      var l := keyLen as nat;
      assert info == [if keyType.SessionKeys? then 0x01 else 0x02, keyLen]
                     + [|hostId| as byte] + hostId + [|eid| as byte] + eid;
      KdfIsCounterMode(p, secret, info, 3 * l);
      if 1 <= keyLen <= 96 {
        SplitFollowsTable4c(KdfBytes(p, secret, info, 3 * l).value, l);
      }
    }
  }

  /**
    Derivations that differ in key type, key length or identifier hash different inputs at every
    counter, so no component is dropped on the way to the keys.
   */
  lemma EveryComponentReachesTheHash(
    secret: bytes, counter: u32,
    keyType: BspKeyType, keyLen: byte, hostId: bytes, eid: bytes,
    keyType': BspKeyType, keyLen': byte, hostId': bytes, eid': bytes)
    requires |hostId| <= 255 && |eid| <= 255 && |hostId'| <= 255 && |eid'| <= 255
    requires (keyType, keyLen, hostId, eid) != (keyType', keyLen', hostId', eid')
    ensures secret + BigEndian32(counter)
            + ([if keyType.SessionKeys? then 0x01 else 0x02, keyLen]
               + [|hostId| as byte] + hostId + [|eid| as byte] + eid)
            != secret + BigEndian32(counter)
               + ([if keyType'.SessionKeys? then 0x01 else 0x02, keyLen']
                  + [|hostId'| as byte] + hostId' + [|eid'| as byte] + eid')
  {
    var info := SharedInfo(keyType.Value(), keyLen, hostId, eid);
    var info' := SharedInfo(keyType'.Value(), keyLen', hostId', eid');
    var front := secret + BigEndian32(counter);
    if front + info.value == front + info'.value {
      assert info.value == (front + info.value)[|front|..];
      assert info'.value == (front + info'.value)[|front|..];
      SharedInfoIsInjective(
        keyType.Value(), keyLen, hostId, eid, keyType'.Value(), keyLen', hostId', eid');
    }
  }
}
