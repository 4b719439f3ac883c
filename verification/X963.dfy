/**
  The X9.63 key derivation function with SHA-256, and BSP's `SharedInfo` (section 2.6.4.2 of
  SGP.22).
 */
module X963 {
  import opened Bytes
  import opened Primitives

  const SHA256_LEN := 32
  const MAX_ITERATIONS := 9

  /** Hash block number `counter`: the hash of secret, big-endian counter and shared info. */
  function HashBlock(p: Suite, secret: bytes, counter: u32, info: bytes): Digest {
    p.sha256(secret + BigEndian32(counter) + info)
  }

  /** The first `blocks` hash blocks, counters from 1. */
  function HashStream(p: Suite, secret: bytes, info: bytes, blocks: nat): (r: bytes)
    requires blocks < 0x1_0000_0000
    ensures |r| == blocks * SHA256_LEN
  {
    if blocks == 0 then [] else HashStream(p, secret, info, blocks - 1) + HashBlock(p, secret, blocks as u32, info)
  }

  function Iterations(len: nat): nat {
    (len + SHA256_LEN - 1) / SHA256_LEN
  }

  function KdfBytes(p: Suite, secret: bytes, info: bytes, len: nat): Result<bytes> {
    if len == 0 || Iterations(len) > MAX_ITERATIONS then Err(Malformed)
    else Ok(HashStream(p, secret, info, Iterations(len))[..len])
  }

  method X963Kdf(p: Suite, secret: bytes, info: bytes, len: nat) returns (r: Result<bytes>)
    ensures r == KdfBytes(p, secret, info, len)
  {
    if len == 0 {
      return Err(Malformed);
    }
    var iterations := Iterations(len);
    if iterations > MAX_ITERATIONS {
      return Err(Malformed);
    }
    var keyData: bytes := [];
    for counter := 1 to iterations + 1
      invariant keyData == HashStream(p, secret, info, counter - 1)
    {
      var input := secret;
      input := input + BigEndian32(counter as u32);
      input := input + info;
      keyData := keyData + p.sha256(input);
    }
    r := Ok(keyData[..len]);
  }

  /** Octet `j` of the stream, without recursion: the counter-mode definition. */
  lemma {:induction false} HashStreamOctet(p: Suite, secret: bytes, info: bytes, blocks: nat, j: nat)
    requires blocks < 0x1_0000_0000 && j < blocks * SHA256_LEN
    ensures HashStream(p, secret, info, blocks)[j]
            == HashBlock(p, secret, (j / SHA256_LEN + 1) as u32, info)[j % SHA256_LEN]
  {
    if j < (blocks - 1) * SHA256_LEN {
      HashStreamOctet(p, secret, info, blocks - 1, j);
    } else {
      assert j / SHA256_LEN == blocks - 1;
    }
  }

  /**
    The KDF answers exactly from 1 to 288 octets, and octet `j` is the one at `j % 32` in the hash
    of the secret, the counter `j / 32 + 1` in four octets, and the shared info.
   */
  lemma KdfIsCounterMode(p: Suite, secret: bytes, info: bytes, len: nat)
    ensures KdfBytes(p, secret, info, len) == Err(Malformed) <==> !(1 <= len <= 288)
    ensures KdfBytes(p, secret, info, len).Ok? ==>
              var out := KdfBytes(p, secret, info, len).value;
              && |out| == len
              && forall j | 0 <= j < len ::
                   out[j] == p.sha256(secret + BigEndian32((j / 32 + 1) as u32) + info)[j % 32]
  {
    if KdfBytes(p, secret, info, len).Ok? {
      forall j | 0 <= j < len
        ensures HashStream(p, secret, info, Iterations(len))[j]
                == p.sha256(secret + BigEndian32((j / 32 + 1) as u32) + info)[j % 32]
      {
        HashStreamOctet(p, secret, info, Iterations(len), j);
      }
    }
  }

  /** A shorter request is a prefix of a longer one. */
  lemma ShorterRequestIsPrefix(p: Suite, secret: bytes, info: bytes, short: nat, long: nat)
    requires 1 <= short <= long <= 288
    ensures KdfBytes(p, secret, info, short).Ok? && KdfBytes(p, secret, info, long).Ok?
    ensures KdfBytes(p, secret, info, short).value <= KdfBytes(p, secret, info, long).value
  {
    KdfIsCounterMode(p, secret, info, short);
    KdfIsCounterMode(p, secret, info, long);
  }

  // ---------- SharedInfo ----------

  /** Key type, key length, and the two identifiers with one-octet length prefixes. */
  function SharedInfo(keyType: byte, keyLength: byte, hostId: bytes, eid: bytes): Result<bytes> {
    if |hostId| > 255 || |eid| > 255 then Err(Malformed)
    else Ok([keyType, keyLength] + [|hostId| as byte] + hostId + [|eid| as byte] + eid)
  }

  method BspSharedInfo(keyType: byte, keyLength: byte, hostId: bytes, eid: bytes) returns (r: Result<bytes>)
    ensures r == SharedInfo(keyType, keyLength, hostId, eid)
  {
    if |hostId| > 255 {
      return Err(Malformed);
    }
    if |eid| > 255 {
      return Err(Malformed);
    }
    var out: bytes := [];
    out := out + [keyType];
    out := out + [keyLength];
    out := out + [|hostId| as byte];
    out := out + hostId;
    out := out + [|eid| as byte];
    out := out + eid;
    assert out == SharedInfo(keyType, keyLength, hostId, eid).value;
    r := Ok(out);
  }

  /** Where each field is: type, key length, then each identifier after an octet with its length. */
  lemma SharedInfoLayout(keyType: byte, keyLength: byte, hostId: bytes, eid: bytes)
    ensures SharedInfo(keyType, keyLength, hostId, eid) == Err(Malformed) <==> |hostId| > 255 || |eid| > 255
    ensures SharedInfo(keyType, keyLength, hostId, eid).Ok? ==>
              var s, n := SharedInfo(keyType, keyLength, hostId, eid).value, |hostId|;
              && |s| == 4 + n + |eid|
              && s[0] == keyType && s[1] == keyLength
              && s[2] == n as byte && s[3..3 + n] == hostId
              && s[3 + n] == |eid| as byte && s[4 + n..] == eid
  {
  }

  /** Every component reaches the hash input: no two contexts share a `SharedInfo`. */
  lemma SharedInfoIsInjective(kt: byte, kl: byte, host: bytes, eid: bytes, kt': byte, kl': byte, host': bytes, eid': bytes)
    requires SharedInfo(kt, kl, host, eid).Ok?
    requires SharedInfo(kt, kl, host, eid) == SharedInfo(kt', kl', host', eid')
    ensures kt == kt' && kl == kl' && host == host' && eid == eid'
  {
    SharedInfoLayout(kt, kl, host, eid);
    SharedInfoLayout(kt', kl', host', eid');
  }
}
