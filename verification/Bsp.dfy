/**
  BSP TLV framing: wrapping and unwrapping protected command TLVs (sections 2.6.4.3 to 2.6.4.5 of
  SGP.22).

  `Wrap` and `Unwrap` say what one block does to the MAC chaining value, as functions from the
  value before to the value after. The four methods that update the caller's chaining buffer are
  proved against them.
 */
module Bsp {
  import opened Bytes
  import opened Primitives
  import opened BspKeys
  import opened Wire
  import Cbc128
  import Kdf

  /** The length of a transmitted C-MAC. */
  const CMAC_LEN := 8

  datatype ProtectedTlv = ProtectedTlv(tag: u32, data: bytes, cmac: bytes)

  /** The two protection options. A block number selects the ICV when data is encrypted. */
  datatype Protection = MacAndEncrypt(blockNumber: u32) | MacOnly

  /** The result of processing one block and the chaining value after it. */
  datatype Step<+T> = Step(out: T, chain: bytes)

  // ---------- the C-MAC ----------

  function EncodedLength(len: nat): Result<bytes> {
    if len > MAX_LENGTH then Err(Malformed) else Ok(DerLength(len))
  }

  /** What the C-MAC of a block covers: chaining value, tag, final length, carried data. */
  function MacInput(chain: bytes, tag: u32, finalLength: nat, data: bytes): bytes {
    chain + TagOctets(tag) + DerLength(finalLength) + data
  }

  function FullCmacValue(p: Suite, sMac: bytes, chain: bytes, tag: u32, finalLength: nat, data: bytes): Result<Block> {
    if |chain| != KEY_LEN || |sMac| != KEY_LEN || finalLength > MAX_LENGTH then Err(Malformed)
    else Ok(p.cmac(sMac, MacInput(chain, tag, finalLength, data)))
  }

  /** The full CMAC of a block, whose final length counts the data and the transmitted C-MAC. */
  function BlockCmac(p: Suite, sMac: bytes, chain: bytes, tag: u32, data: bytes): Result<Block> {
    FullCmacValue(p, sMac, chain, tag, |data| + CMAC_LEN, data)
  }

  /** The full CMAC, fed field by field. */
  method FullCmac(p: Suite, sMac: bytes, chain: bytes, tag: u32, finalLength: nat, data: bytes)
    returns (r: Result<Block>)
    ensures r == FullCmacValue(p, sMac, chain, tag, finalLength, data)
  {
    if |chain| != KEY_LEN {
      return Err(Malformed);
    }
    if |sMac| != KEY_LEN {
      return Err(Malformed);
    }
    var fed := chain;
    fed := fed + TagOctets(tag);
    var length :- EncodedLength(finalLength);
    fed := fed + length;
    fed := fed + data;
    r := Ok(p.cmac(sMac, fed));
  }

  /** The transmitted C-MAC: the most significant octets of the full one. */
  method ComputeCmac(p: Suite, sMac: bytes, chain: bytes, tag: u32, finalLength: nat, data: bytes)
    returns (r: Result<bytes>)
    ensures FullCmacValue(p, sMac, chain, tag, finalLength, data).Err? ==> r == Err(Malformed)
    ensures FullCmacValue(p, sMac, chain, tag, finalLength, data).Ok? ==>
              r == Ok(FullCmacValue(p, sMac, chain, tag, finalLength, data).value[..CMAC_LEN])
  {
    var full :- FullCmac(p, sMac, chain, tag, finalLength, data);
    r := Ok(full[..CMAC_LEN]);
  }

  // ---------- one block ----------

  /** The field a block carries: ciphertext when encrypted, plaintext when not. */
  function Carried(p: Suite, keys: BspSessionKeys, protection: Protection, plaintext: bytes): Result<bytes> {
    match protection
    case MacAndEncrypt(n) => Cbc128.Encrypted(p, keys.sEnc, plaintext, n)
    case MacOnly => Ok(plaintext)
  }

  function Recovered(p: Suite, keys: BspSessionKeys, protection: Protection, data: bytes): Result<bytes> {
    match protection
    case MacAndEncrypt(n) => Cbc128.Decrypted(p, keys.sEnc, data, n)
    case MacOnly => Ok(data)
  }

  function Wrap(p: Suite, keys: BspSessionKeys, protection: Protection, tag: u32, plaintext: bytes, chain: bytes)
    : Result<Step<ProtectedTlv>>
  {
    var data :- Carried(p, keys, protection, plaintext);
    var full :- BlockCmac(p, keys.sMac, chain, tag, data);
    Ok(Step(ProtectedTlv(tag, data, full[..CMAC_LEN]), full))
  }

  function Unwrap(p: Suite, keys: BspSessionKeys, protection: Protection, tlv: ProtectedTlv, chain: bytes)
    : Result<Step<bytes>>
  {
    var full :- BlockCmac(p, keys.sMac, chain, tlv.tag, tlv.data);
    if full[..CMAC_LEN] != tlv.cmac then Err(VerificationFailed)
    else
      var plaintext :- Recovered(p, keys, protection, tlv.data);
      Ok(Step(plaintext, full))
  }

  method WrapEncrypt(
    p: Suite, keys: BspSessionKeys, tag: u32, plaintext: bytes, blockNumber: u32, chaining: array<byte>)
    returns (r: Result<ProtectedTlv>)
    modifies chaining
    ensures var step := old(Wrap(p, keys, MacAndEncrypt(blockNumber), tag, plaintext, chaining[..]));
            if step.Ok? then r == Ok(step.value.out) && chaining[..] == step.value.chain
            else r == Err(step.error) && chaining[..] == old(chaining[..])
  {
    var ciphertext :- Cbc128.Encrypt(p, keys.sEnc, plaintext, blockNumber);
    var finalLength := |ciphertext| + CMAC_LEN;
    var cmac :- ComputeCmac(p, keys.sMac, chaining[..], tag, finalLength, ciphertext);
    var full := FullCmac(p, keys.sMac, chaining[..], tag, finalLength, ciphertext);
    CopyFromSlice(chaining, full.value);  // the same computation has just succeeded
    r := Ok(ProtectedTlv(tag, ciphertext, cmac));
  }

  method WrapMacOnly(p: Suite, keys: BspSessionKeys, tag: u32, plaintext: bytes, chaining: array<byte>)
    returns (r: Result<ProtectedTlv>)
    modifies chaining
    ensures var step := old(Wrap(p, keys, MacOnly, tag, plaintext, chaining[..]));
            if step.Ok? then r == Ok(step.value.out) && chaining[..] == step.value.chain
            else r == Err(step.error) && chaining[..] == old(chaining[..])
  {
    var finalLength := |plaintext| + CMAC_LEN;
    var cmac :- ComputeCmac(p, keys.sMac, chaining[..], tag, finalLength, plaintext);
    var full := FullCmac(p, keys.sMac, chaining[..], tag, finalLength, plaintext);
    CopyFromSlice(chaining, full.value);  // the same computation has just succeeded
    r := Ok(ProtectedTlv(tag, plaintext, cmac));
  }

  method UnwrapEncrypt(p: Suite, keys: BspSessionKeys, tlv: ProtectedTlv, blockNumber: u32, chaining: array<byte>)
    returns (r: Result<bytes>)
    modifies chaining
    ensures var step := old(Unwrap(p, keys, MacAndEncrypt(blockNumber), tlv, chaining[..]));
            if step.Ok? then r == Ok(step.value.out) && chaining[..] == step.value.chain
            else r == Err(step.error) && chaining[..] == old(chaining[..])
  {
    var finalLength := |tlv.data| + CMAC_LEN;
    var expected :- ComputeCmac(p, keys.sMac, chaining[..], tlv.tag, finalLength, tlv.data);
    var equal := Kdf.ConstantTimeEq(expected, tlv.cmac);
    if !equal {
      return Err(VerificationFailed);
    }
    var plaintext :- Cbc128.Decrypt(p, keys.sEnc, tlv.data, blockNumber);
    var full := FullCmac(p, keys.sMac, chaining[..], tlv.tag, finalLength, tlv.data);
    CopyFromSlice(chaining, full.value);  // the same computation has just succeeded
    r := Ok(plaintext);
  }

  method UnwrapMacOnly(p: Suite, keys: BspSessionKeys, tlv: ProtectedTlv, chaining: array<byte>)
    returns (r: Result<bytes>)
    modifies chaining
    ensures var step := old(Unwrap(p, keys, MacOnly, tlv, chaining[..]));
            if step.Ok? then r == Ok(step.value.out) && chaining[..] == step.value.chain
            else r == Err(step.error) && chaining[..] == old(chaining[..])
  {
    var finalLength := |tlv.data| + CMAC_LEN;
    var expected :- ComputeCmac(p, keys.sMac, chaining[..], tlv.tag, finalLength, tlv.data);
    var equal := Kdf.ConstantTimeEq(expected, tlv.cmac);
    if !equal {
      return Err(VerificationFailed);
    }
    var full := FullCmac(p, keys.sMac, chaining[..], tlv.tag, finalLength, tlv.data);
    CopyFromSlice(chaining, full.value);  // the same computation has just succeeded
    r := Ok(tlv.data);
  }

  /** Overwrite a buffer with bytes of the same length. */
  method CopyFromSlice(buffer: array<byte>, source: bytes)
    requires buffer.Length == |source|
    modifies buffer
    ensures buffer[..] == source
  {
    forall i | 0 <= i < |source| {
      buffer[i] := source[i];
    }
  }

  // ---------- the wire form ----------

  function Encode(tlv: ProtectedTlv): bytes {
    RawTlv(tlv.tag, tlv.data + tlv.cmac)
  }

  function Decode(input: bytes): (r: Result<ProtectedTlv>) {
    var t :- ReadTlv(input);
    if |t.value| < CMAC_LEN then Err(Malformed)
    else
      ReadTagIsWellFormed(input);
      var split := |t.value| - CMAC_LEN;
      Ok(ProtectedTlv(t.tag as u32, t.value[..split], t.value[split..]))
  }

  /** What the framing can carry. */
  predicate IsFramable(tlv: ProtectedTlv) {
    IsWellFormedTag(tlv.tag as nat) && |tlv.cmac| == CMAC_LEN && |tlv.data| + CMAC_LEN <= MAX_LENGTH
  }

  /** Decoding undoes encoding, whatever follows, exactly for framable TLVs. */
  lemma FramingRoundTrip(tlv: ProtectedTlv, rest: bytes)
    ensures Decode(Encode(tlv) + rest) == Ok(tlv) <==> IsFramable(tlv)
  {
    var value := tlv.data + tlv.cmac;
    TlvRoundTrip(tlv.tag, value, rest);
    if IsFramable(tlv) {
      assert value[..|tlv.data|] == tlv.data && value[|tlv.data|..] == tlv.cmac;
    }
  }

  /** Decoded is exactly tag, length and a body that ends in eight octets of MAC, in any form a reader accepts. */
  lemma DecodedExactly(input: bytes, tlv: ProtectedTlv)
    ensures Decode(input) == Ok(tlv) <==>
            |tlv.cmac| == 8 && BeginsWithTlv(input, tlv.tag as nat, tlv.data + tlv.cmac)
  {
    var body := tlv.data + tlv.cmac;
    BeginsWithTlvExactly(input, tlv.tag as nat, body);
    if Decode(input) == Ok(tlv) {
      assert body == ReadTlv(input).value.value;
    }
    if |tlv.cmac| == 8 {
      assert body[..|body| - 8] == tlv.data && body[|body| - 8..] == tlv.cmac;
    }
  }

  /** Whatever bytes are decoded, re-encoding the result is stable up to the length bound. */
  lemma DecodedIsStable(input: bytes, rest: bytes)
    requires Decode(input).Ok?
    ensures IsWellFormedTag(Decode(input).value.tag as nat) && |Decode(input).value.cmac| == CMAC_LEN
    ensures Decode(Encode(Decode(input).value) + rest) == Decode(input)
            <==> |Decode(input).value.data| + CMAC_LEN <= MAX_LENGTH
  {
    ReadTagIsWellFormed(input);
    FramingRoundTrip(Decode(input).value, rest);
  }

  // ---------- the MAC input ----------

  /** The MAC input determines the chaining value, the tag, the final length and the data. */
  lemma MacInputIsInjective(
    chain: bytes, tag: u32, len: nat, data: bytes, chain': bytes, tag': u32, len': nat, data': bytes)
    requires |chain| == |chain'| == KEY_LEN
    requires IsWellFormedTag(tag as nat) && IsWellFormedTag(tag' as nat)
    requires len <= MAX_LENGTH && len' <= MAX_LENGTH
    requires MacInput(chain, tag, len, data) == MacInput(chain', tag', len', data')
    ensures chain == chain' && tag == tag' && len == len' && data == data'
  {
    var s, s' := MacInput(chain, tag, len, data), MacInput(chain', tag', len', data');
    assert chain == s[..KEY_LEN] && s[KEY_LEN..] == TagOctets(tag) + DerLength(len) + data;
    assert chain' == s'[..KEY_LEN] && s'[KEY_LEN..] == TagOctets(tag') + DerLength(len') + data';
    HeaderIsPrefixFree(tag, len, data, tag', len', data');
  }

  /**
    A tag that is not well formed breaks this: as one octet `86` and as two octets `8610`, the
    tag and length octets of two different blocks spell the same bytes.
   */
  lemma MalformedTagMakesMacInputAmbiguous(chain: bytes)
    ensures !IsWellFormedTag(0x8610)
    ensures MacInput(chain, 0x86, 8 + CMAC_LEN, [0x0F, 1, 2, 3, 4, 5, 6, 7])
            == MacInput(chain, 0x8610, 7 + CMAC_LEN, [1, 2, 3, 4, 5, 6, 7])
  {
    assert MacInput(chain, 0x86, 16, [0x0F, 1, 2, 3, 4, 5, 6, 7]) == chain + [0x86, 0x10, 0x0F, 1, 2, 3, 4, 5, 6, 7];
    assert MacInput(chain, 0x8610, 15, [1, 2, 3, 4, 5, 6, 7]) == chain + [0x86, 0x10, 0x0F, 1, 2, 3, 4, 5, 6, 7];
  }

  // ---------- what one step guarantees ----------

  /**
    The same pair seen by a receiver: a block wrapped under the tag `8610` arrives, from its own
    wire bytes, as a block of tag `86` with other data, and its MAC verifies.
   */
  lemma MalformedTagIsRelabelled(p: Suite, keys: BspSessionKeys, chain: bytes)
    requires |chain| == KEY_LEN && |keys.sMac| == KEY_LEN
    ensures var data, other := [1, 2, 3, 4, 5, 6, 7], [0x0F, 1, 2, 3, 4, 5, 6, 7];
            var sent := Wrap(p, keys, MacOnly, 0x8610, data, chain);
            && sent.Ok?
            && Decode(Encode(sent.value.out)) == Ok(ProtectedTlv(0x86, other, sent.value.out.cmac))
            && Unwrap(p, keys, MacOnly, ProtectedTlv(0x86, other, sent.value.out.cmac), chain)
               == Ok(Step(other, sent.value.chain))
  {
    var data: bytes, other: bytes := [1, 2, 3, 4, 5, 6, 7], [0x0F, 1, 2, 3, 4, 5, 6, 7];
    MalformedTagMakesMacInputAmbiguous(chain);
    var sent := Wrap(p, keys, MacOnly, 0x8610, data, chain).value;
    var tlv := ProtectedTlv(0x86, other, sent.out.cmac);
    FramingRoundTrip(tlv, []);
    SameWire(sent.out.cmac);
    assert Encode(tlv) + [] == Encode(tlv);
  }

  lemma SameWire(mac: bytes)
    requires |mac| == CMAC_LEN
    ensures Encode(ProtectedTlv(0x8610, [1, 2, 3, 4, 5, 6, 7], mac))
            == Encode(ProtectedTlv(0x86, [0x0F, 1, 2, 3, 4, 5, 6, 7], mac))
  {
    assert Encode(ProtectedTlv(0x8610, [1, 2, 3, 4, 5, 6, 7], mac)) == [0x86, 0x10, 0x0F, 1, 2, 3, 4, 5, 6, 7] + mac;
    assert Encode(ProtectedTlv(0x86, [0x0F, 1, 2, 3, 4, 5, 6, 7], mac)) == [0x86, 0x10, 0x0F, 1, 2, 3, 4, 5, 6, 7] + mac;
  }

  /** The MAC key, the chaining value and the length of a block are such that its C-MAC can be computed. */
  ghost predicate IsMacable(keys: BspSessionKeys, chain: bytes, data: bytes) {
    |chain| == 16 && |keys.sMac| == 16 && |data| + 8 <= 0xFFFF
  }

  /** The CMAC over chaining value, tag, final length and data. */
  ghost function MacOf(p: Suite, keys: BspSessionKeys, chain: bytes, tag: u32, data: bytes): Block
    requires IsMacable(keys, chain, data)
  {
    p.cmac(keys.sMac, chain + TagOctets(tag) + DerLength(|data| + 8) + data)
  }

  /** `data` is the CBC encryption, from the encrypted block number on, of `plaintext`, 0x80 and zeroes. */
  ghost predicate IsEncryptionOf(p: Suite, sEnc: bytes, blockNumber: u32, data: bytes, plaintext: bytes) {
    && |sEnc| == 16 && |data| % 16 == 0 && |plaintext| < |data|
    && data == Cbc128.CbcEncrypt(p, sEnc, p.aesEncrypt(sEnc, Zeros(12) + BigEndian32(blockNumber)),
                                 plaintext + [0x80] + Zeros(|data| - |plaintext| - 1))
  }

  /**
    When unwrapping succeeds, for blocks and chaining values of whatever origin: exactly when the
    C-MAC can be computed and begins with the one carried, and the data is the plaintext, or an
    encryption of it under this block number. A C-MAC that differs is a verification failure, and
    everything else is malformed.
   */
  lemma UnwrapExactly(
    p: Suite, keys: BspSessionKeys, protection: Protection, tlv: ProtectedTlv, chain: bytes, plaintext: bytes, full: bytes)
    requires p.AesIsPermutation()
    ensures Unwrap(p, keys, protection, tlv, chain) == Ok(Step(plaintext, full)) <==>
            && IsMacable(keys, chain, tlv.data)
            && full == MacOf(p, keys, chain, tlv.tag, tlv.data) && tlv.cmac == full[..8]
            && match protection {
                 case MacAndEncrypt(n) => IsEncryptionOf(p, keys.sEnc, n, tlv.data, plaintext)
                 case MacOnly => tlv.data == plaintext
               }
    ensures Unwrap(p, keys, protection, tlv, chain) == Err(VerificationFailed) <==>
            IsMacable(keys, chain, tlv.data) && tlv.cmac != MacOf(p, keys, chain, tlv.tag, tlv.data)[..8]
    ensures Unwrap(p, keys, protection, tlv, chain).Err? ==>
              Unwrap(p, keys, protection, tlv, chain).error in {VerificationFailed, Malformed}
  {
    if protection.MacAndEncrypt? {
      Cbc128.DecryptsExactly(p, keys.sEnc, tlv.data, protection.blockNumber, plaintext);
    }
  }

  /** When wrapping succeeds, and with what. */
  lemma WrapExactly(
    p: Suite, keys: BspSessionKeys, protection: Protection, tag: u32, plaintext: bytes, chain: bytes,
    tlv: ProtectedTlv, full: bytes)
    requires p.AesIsPermutation()
    ensures Wrap(p, keys, protection, tag, plaintext, chain) == Ok(Step(tlv, full)) <==>
            && IsMacable(keys, chain, tlv.data)
            && full == MacOf(p, keys, chain, tag, tlv.data) && tlv.cmac == full[..8] && tlv.tag == tag
            && match protection {
                 case MacAndEncrypt(n) =>
                   IsEncryptionOf(p, keys.sEnc, n, tlv.data, plaintext) && |tlv.data| <= |plaintext| + 16
                 case MacOnly => tlv.data == plaintext
               }
    ensures Wrap(p, keys, protection, tag, plaintext, chain).Err? ==>
              Wrap(p, keys, protection, tag, plaintext, chain) == Err(Malformed)
  {
    if protection.MacAndEncrypt? && |keys.sEnc| == 16 {
      OnePaddingFits(plaintext, |tlv.data|);
    }
  }

  /** Of the lengths above a plaintext's, one is a multiple of 16 and at most 16 more; padding has it. */
  lemma OnePaddingFits(plaintext: bytes, n: nat)
    ensures n % 16 == 0 && |plaintext| < n <= |plaintext| + 16 <==> n == |Cbc128.Padded(plaintext)|
    ensures Cbc128.Padded(plaintext) == plaintext + [0x80] + Zeros(|Cbc128.Padded(plaintext)| - |plaintext| - 1)
  {
  }

  /** Wrapping succeeds exactly for these lengths. */
  lemma WrapSucceedsExactly(
    p: Suite, keys: BspSessionKeys, protection: Protection, tag: u32, plaintext: bytes, chain: bytes)
    ensures Wrap(p, keys, protection, tag, plaintext, chain).Ok? <==>
            && |chain| == 16
            && |keys.sMac| == 16
            && (protection.MacAndEncrypt? ==> |keys.sEnc| == 16)
            && (if protection.MacAndEncrypt? then |plaintext| / 16 * 16 + 16 else |plaintext|) + 8 <= 0xFFFF
  {
  }

  /**
    The C-MAC covers exactly the bytes that go on the wire before it: without its last octets the
    encoded TLV is the MAC input without the chaining value.
   */
  lemma MacCoversTheWire(
    p: Suite, keys: BspSessionKeys, protection: Protection, tag: u32, plaintext: bytes, chain: bytes)
    requires Wrap(p, keys, protection, tag, plaintext, chain).Ok?
    ensures var s := Wrap(p, keys, protection, tag, plaintext, chain).value;
            var wire := Encode(s.out);
            && |keys.sMac| == KEY_LEN
            && wire == wire[..|wire| - CMAC_LEN] + s.out.cmac
            && s.chain == p.cmac(keys.sMac, chain + wire[..|wire| - CMAC_LEN])
            && s.out.cmac == s.chain[..CMAC_LEN]
            && (IsWellFormedTag(tag as nat) ==> IsFramable(s.out))
  {
    var s := Wrap(p, keys, protection, tag, plaintext, chain).value;
    var wire := Encode(s.out);
    var front := TagOctets(tag) + DerLength(|s.out.data| + CMAC_LEN) + s.out.data;
    assert |s.out.data + s.out.cmac| == |s.out.data| + CMAC_LEN;
    assert wire == front + s.out.cmac;
    assert wire[..|wire| - CMAC_LEN] == front;
    assert chain + front == MacInput(chain, tag, |s.out.data| + CMAC_LEN, s.out.data);
  }

  /**
    What an encrypted block carries, octet block by octet block: the padded plaintext in CBC under
    S-ENC, from the encrypted block number on.
   */
  lemma EncryptedFieldIsCbc(
    p: Suite, keys: BspSessionKeys, blockNumber: u32, tag: u32, plaintext: bytes, chain: bytes, i: nat)
    requires Wrap(p, keys, MacAndEncrypt(blockNumber), tag, plaintext, chain).Ok?
    requires (i + 1) * KEY_LEN <= |Cbc128.Padded(plaintext)|
    ensures var data := Wrap(p, keys, MacAndEncrypt(blockNumber), tag, plaintext, chain).value.out.data;
            && |keys.sEnc| == KEY_LEN
            && |data| == |Cbc128.Padded(plaintext)|
            && var before := if i == 0 then p.aesEncrypt(keys.sEnc, Cbc128.NumberBlock(blockNumber))
                             else Cbc128.BlockAt(data, i - 1);
            Cbc128.BlockAt(data, i)
            == p.aesEncrypt(keys.sEnc, Cbc128.XorBlock(Cbc128.BlockAt(Cbc128.Padded(plaintext), i), before))
  {
    var iv := p.aesEncrypt(keys.sEnc, Cbc128.NumberBlock(blockNumber));
    Cbc128.CbcBlockEquation(p, keys.sEnc, iv, Cbc128.Padded(plaintext), i);
  }

  /** Success of either side leaves a 16-byte chaining value that begins with the block's C-MAC. */
  lemma ChainBeginsWithCmac(
    p: Suite, keys: BspSessionKeys, protection: Protection, tlv: ProtectedTlv, chain: bytes)
    requires Unwrap(p, keys, protection, tlv, chain).Ok?
    ensures var after := Unwrap(p, keys, protection, tlv, chain).value.chain;
            |after| == KEY_LEN && after[..CMAC_LEN] == tlv.cmac
  {
  }

  /**
    A carried field gives its plaintext back under the protection it was made with and under no
    other: not under another block number, not as clear data, and clear data not by decryption.
   */
  lemma RecoveredOnlyAsCarried(p: Suite, keys: BspSessionKeys, carried: Protection, taken: Protection, plaintext: bytes)
    requires p.AesIsPermutation()
    requires Carried(p, keys, carried, plaintext).Ok?
    ensures Recovered(p, keys, taken, Carried(p, keys, carried, plaintext).value) == Ok(plaintext) <==> taken == carried
  {
    if carried.MacAndEncrypt? {
      Cbc128.DecryptUndoesEncrypt(p, keys.sEnc, plaintext, carried.blockNumber);
      if taken.MacAndEncrypt? && taken != carried {
        Cbc128.WrongBlockNumberNeverReproduces(p, keys.sEnc, plaintext, carried.blockNumber, taken.blockNumber);
      }
    }
  }

  /** Unwrapping what was wrapped, from the same chaining value, undoes it and follows the chain. */
  lemma UnwrapUndoesWrap(
    p: Suite, keys: BspSessionKeys, protection: Protection, tag: u32, plaintext: bytes, chain: bytes)
    requires p.AesIsPermutation()
    requires Wrap(p, keys, protection, tag, plaintext, chain).Ok?
    ensures var s := Wrap(p, keys, protection, tag, plaintext, chain).value;
            Unwrap(p, keys, protection, s.out, chain) == Ok(Step(plaintext, s.chain))
  {
    if protection.MacAndEncrypt? {
      Cbc128.DecryptUndoesEncrypt(p, keys.sEnc, plaintext, protection.blockNumber);
    }
  }

  /** The MAC is checked first: data under a wrong one is reported as such whatever it decrypts to. */
  lemma WrongMacIsReportedBeforeDecryption(
    p: Suite, keys: BspSessionKeys, protection: Protection, tlv: ProtectedTlv, chain: bytes)
    ensures Unwrap(p, keys, protection, tlv, chain) == Err(VerificationFailed) <==>
            IsMacable(keys, chain, tlv.data) && tlv.cmac != MacOf(p, keys, chain, tlv.tag, tlv.data)[..8]
  {
  }
}
