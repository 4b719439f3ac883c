/**
  AES-CBC-128 as BSP uses it: `80 00…` padding, and an ICV that is the encrypted block number
  (section 2.6.4.4 of SGP.22; CBC is section 6.2 of NIST SP 800-38A).
 */
module Cbc128 {
  import opened Bytes
  import opened Primitives

  const BLOCK_LEN := 16

  // ---------- the ICV ----------

  function AesKey(key: bytes): Result<Block> {
    if |key| == BLOCK_LEN then Ok(key) else Err(Malformed)
  }

  /** The block number, big-endian, left-padded with zeroes to a block. */
  function NumberBlock(blockNumber: u32): Block {
    Zeros(12) + BigEndian32(blockNumber)
  }

  function IcvValue(p: Suite, sEnc: bytes, blockNumber: u32): Result<Block> {
    var key :- AesKey(sEnc);
    Ok(p.aesEncrypt(key, NumberBlock(blockNumber)))
  }

  method Icv(p: Suite, sEnc: bytes, blockNumber: u32) returns (r: Result<Block>)
    ensures r == IcvValue(p, sEnc, blockNumber)
  {
    var key :- AesKey(sEnc);
    var block := new byte[BLOCK_LEN](_ => 0);
    var be := BigEndian32(blockNumber);
    forall i | 0 <= i < 4 {
      block[12 + i] := be[i];
    }
    assert block[..] == NumberBlock(blockNumber);
    r := Ok(p.aesEncrypt(key, block[..]));
  }

  /** Decrypting the ICV as one block gives the block number, as a 16-octet big-endian integer. */
  lemma IcvDecryptsToTheNumber(p: Suite, key: Block, blockNumber: u32)
    requires p.AesIsPermutation()
    ensures BigEndianValue(p.aesDecrypt(key, IcvValue(p, key, blockNumber).value)) == blockNumber as nat
  {
    assert p.aesDecrypt(key, p.aesEncrypt(key, NumberBlock(blockNumber))) == NumberBlock(blockNumber);
    LeadingZeros(12, BigEndian32(blockNumber));
  }

  /** Different block numbers have different ICVs under one key. */
  lemma IcvIsInjective(p: Suite, key: Block, m: u32, n: u32)
    requires p.AesIsPermutation()
    requires IcvValue(p, key, m) == IcvValue(p, key, n)
    ensures m == n
  {
    assert NumberBlock(m) == NumberBlock(n) by {
      assert p.aesDecrypt(key, p.aesEncrypt(key, NumberBlock(m))) == p.aesDecrypt(key, p.aesEncrypt(key, NumberBlock(n)));
    }
    assert BigEndian32(m) == NumberBlock(m)[12..];
    assert BigEndian32(n) == NumberBlock(n)[12..];
  }

  // ---------- padding ----------

  function PaddingLength(n: nat): (k: nat)
    ensures k < BLOCK_LEN && (n + 1 + k) % BLOCK_LEN == 0
  {
    (BLOCK_LEN - 1 - n % BLOCK_LEN)
  }

  function Padded(data: bytes): (r: bytes)
    ensures |r| % BLOCK_LEN == 0 && |data| < |r| <= |data| + BLOCK_LEN
  {
    data + [0x80] + Zeros(PaddingLength(|data|))
  }

  method Pad(data: bytes) returns (out: bytes)
    ensures out == Padded(data)
  {
    out := data + [0x80];
    ghost var k := 0;
    while |out| % BLOCK_LEN != 0
      invariant k <= PaddingLength(|data|)
      invariant out == data + [0x80] + Zeros(k)
      decreases PaddingLength(|data|) - k
    {
      out := out + [0x00];
      k := k + 1;
    }
  }

  /** The position of the last octet equal to `b`. */
  function LastPosition(s: bytes, b: byte): (r: Option<nat>)
    ensures r.Some? ==> r.value < |s| && s[r.value] == b && forall i :: r.value < i < |s| ==> s[i] != b
    ensures r.None? ==> b !in s
  {
    if s == [] then None
    else if s[|s| - 1] == b then Some(|s| - 1)
    else LastPosition(s[..|s| - 1], b)
  }

  function Unpad(padded: bytes): Result<bytes> {
    if padded == [] || |padded| % BLOCK_LEN != 0 then Err(Malformed)
    else
      match LastPosition(padded, 0x80)
      case Some(i) =>
        if forall k :: i + 1 <= k < |padded| ==> padded[k] == 0x00 then Ok(padded[..i]) else Err(Malformed)
      case None => Err(Malformed)
  }

  /** `padded` is `data`, the marker, and then only zeroes. */
  ghost predicate IsDataThenPadding(padded: bytes, data: bytes) {
    |data| < |padded| && padded == data + [0x80] + Zeros(|padded| - |data| - 1)
  }

  /** Stripping succeeds with `data` exactly on whole blocks holding `data` and then padding. */
  lemma UnpadCharacterised(padded: bytes, data: bytes)
    ensures Unpad(padded) == Ok(data) <==>
            && padded != [] && |padded| % 16 == 0
            && |data| < |padded| && padded == data + [0x80] + Zeros(|padded| - |data| - 1)
  {
    if padded != [] && |padded| % BLOCK_LEN == 0 {
      if IsDataThenPadding(padded, data) {
        assert padded[|data|] == 0x80;
        assert LastPosition(padded, 0x80) == Some(|data|);
        assert padded[..|data|] == data;
      }
      if Unpad(padded) == Ok(data) {
        var i := LastPosition(padded, 0x80).value;
        assert padded == padded[..i] + [padded[i]] + padded[i + 1..];
      }
    }
  }

  lemma UnpadUndoesPad(data: bytes)
    ensures Unpad(Padded(data)) == Ok(data)
  {
    UnpadCharacterised(Padded(data), data);
  }

  /**
    `pad`'s output begins every buffer that strips to `data`. The module's comment says that a
    buffer `pad` did not produce is reported; the code accepts the marker in any block, so that
    holds exactly when the marker is in the final one.
   */
  lemma UnpadAcceptsMoreThanPadProduces(padded: bytes, data: bytes)
    requires Unpad(padded) == Ok(data)
    ensures Padded(data) <= padded
    ensures padded == Padded(data) <==> 0x80 in padded[|padded| - BLOCK_LEN..]
  {
    UnpadCharacterised(padded, data);
    MarkerIsLast(padded, data, |padded| - BLOCK_LEN);
    PaddedIsPrefix(padded, data);
  }

  lemma PaddedIsPrefix(padded: bytes, data: bytes)
    requires |padded| % BLOCK_LEN == 0 && IsDataThenPadding(padded, data)
    ensures Padded(data) <= padded
    ensures padded == Padded(data) <==> |padded| - BLOCK_LEN <= |data|
  {
    var n := |Padded(data)|;
    LeastMultiple(|data|, n, |padded|);
    MoreZeros(data + [0x80], n - |data| - 1, |padded| - |data| - 1);
  }

  lemma LeastMultiple(d: nat, n: nat, m: nat)
    requires n % BLOCK_LEN == 0 && m % BLOCK_LEN == 0 && d < n <= d + BLOCK_LEN && d < m
    ensures n <= m && (n == m <==> m - BLOCK_LEN <= d)
  {
    assert n == n / BLOCK_LEN * BLOCK_LEN && m == m / BLOCK_LEN * BLOCK_LEN;
  }

  lemma MoreZeros(s: bytes, m: nat, n: nat)
    requires m <= n
    ensures s + Zeros(m) <= s + Zeros(n)
    ensures s + Zeros(m) == s + Zeros(n) <==> m == n
  {
    assert |s + Zeros(m)| == |s| + m && |s + Zeros(n)| == |s| + n;
  }

  /** The padding's marker is the last octet of its kind. */
  lemma MarkerIsLast(padded: bytes, data: bytes, from: nat)
    requires from <= |padded| && IsDataThenPadding(padded, data)
    ensures 0x80 in padded[from..] <==> from <= |data|
  {
    if from <= |data| {
      assert padded[from..][|data| - from] == padded[|data|] == 0x80;
    } else {
      assert forall i :: 0 <= i < |padded| - from ==> padded[from..][i] == padded[from + i];
    }
  }

  /** A concrete buffer of the accepted family that `pad` never produces. */
  lemma UnpadAcceptsAnEarlierMarker()
    ensures Unpad([0x80] + Zeros(31)) == Ok([]) && Padded([]) != [0x80] + Zeros(31)
  {
    UnpadCharacterised([0x80] + Zeros(31), []);
    assert |Padded([])| == 16;
  }

  // ---------- CBC ----------

  function XorBlock(a: Block, b: Block): (r: Block) {
    seq(BLOCK_LEN, i requires 0 <= i < BLOCK_LEN => Xor(a[i], b[i]))
  }

  /** Each bit of the result is the sum of the two bits, without carry. */
  lemma XorBlockIsBitwise(a: Block, b: Block, i: nat, k: nat)
    requires i < 16
    ensures Bit(XorBlock(a, b)[i] as nat, k) == (Bit(a[i] as nat, k) + Bit(b[i] as nat, k)) % 2
  {
    BitXorBit(a[i] as nat, b[i] as nat, k);
  }

  lemma XorBlockCancels(a: Block, b: Block)
    ensures XorBlock(XorBlock(a, b), b) == a
    ensures XorBlock(a, b) == XorBlock(b, a)
  {
    forall i | 0 <= i < BLOCK_LEN
      ensures XorBlock(XorBlock(a, b), b)[i] == a[i] && XorBlock(a, b)[i] == XorBlock(b, a)[i]
    {
      BitXorCancels(a[i] as nat, b[i] as nat);
      BitXorCommutes(a[i] as nat, b[i] as nat);
    }
  }

  function CbcEncrypt(p: Suite, key: Block, iv: Block, data: bytes): (r: bytes)
    requires |data| % BLOCK_LEN == 0
    ensures |r| == |data|
    decreases |data|
  {
    if data == [] then []
    else
      var c := p.aesEncrypt(key, XorBlock(data[..BLOCK_LEN], iv));
      c + CbcEncrypt(p, key, c, data[BLOCK_LEN..])
  }

  function CbcDecrypt(p: Suite, key: Block, iv: Block, data: bytes): (r: bytes)
    requires |data| % BLOCK_LEN == 0
    ensures |r| == |data|
    decreases |data|
  {
    if data == [] then []
    else
      XorBlock(p.aesDecrypt(key, data[..BLOCK_LEN]), iv) + CbcDecrypt(p, key, data[..BLOCK_LEN], data[BLOCK_LEN..])
  }

  lemma {:induction false} CbcDecryptUndoesEncrypt(p: Suite, key: Block, iv: Block, data: bytes)
    requires p.AesIsPermutation()
    requires |data| % BLOCK_LEN == 0
    ensures CbcDecrypt(p, key, iv, CbcEncrypt(p, key, iv, data)) == data
    decreases |data|
  {
    if data != [] {
      var head: Block := data[..BLOCK_LEN];
      var c: bytes := p.aesEncrypt(key, XorBlock(head, iv));
      var rest := CbcEncrypt(p, key, c, data[BLOCK_LEN..]);
      assert (c + rest)[..BLOCK_LEN] == c && (c + rest)[BLOCK_LEN..] == rest;
      CbcDecryptUndoesEncrypt(p, key, c, data[BLOCK_LEN..]);
      XorBlockCancels(head, iv);
    }
  }

  /** CBC encryption undoes CBC decryption: every whole number of blocks is a ciphertext. */
  lemma {:induction false} CbcEncryptUndoesDecrypt(p: Suite, key: Block, iv: Block, data: bytes)
    requires p.AesIsPermutation()
    requires |data| % BLOCK_LEN == 0
    ensures CbcEncrypt(p, key, iv, CbcDecrypt(p, key, iv, data)) == data
    decreases |data|
  {
    if data != [] {
      var c: Block := data[..BLOCK_LEN];
      var plain: bytes := XorBlock(p.aesDecrypt(key, c), iv);
      var rest := CbcDecrypt(p, key, c, data[BLOCK_LEN..]);
      assert (plain + rest)[..BLOCK_LEN] == plain && (plain + rest)[BLOCK_LEN..] == rest;
      XorBlockCancels(p.aesDecrypt(key, c), iv);
      CbcEncryptUndoesDecrypt(p, key, c, data[BLOCK_LEN..]);
    }
  }

  /** Block `i` of a run of blocks. */
  function BlockAt(data: bytes, i: nat): Block
    requires (i + 1) * BLOCK_LEN <= |data|
  {
    data[i * BLOCK_LEN..(i + 1) * BLOCK_LEN]
  }

  /** The defining equation of CBC: each block is combined with the ciphertext block before it, the first with the ICV. */
  lemma {:induction false} CbcBlockEquation(p: Suite, key: Block, iv: Block, data: bytes, i: nat)
    requires |data| % BLOCK_LEN == 0 && (i + 1) * BLOCK_LEN <= |data|
    ensures var c := CbcEncrypt(p, key, iv, data);
            BlockAt(c, i) == p.aesEncrypt(key, XorBlock(BlockAt(data, i), if i == 0 then iv else BlockAt(c, i - 1)))
    decreases i
  {
    var first: bytes := p.aesEncrypt(key, XorBlock(data[..BLOCK_LEN], iv));
    var rest := CbcEncrypt(p, key, first, data[BLOCK_LEN..]);
    var c := CbcEncrypt(p, key, iv, data);
    BlocksOfConcat(first, rest, i);
    BlocksOfConcat(data[..BLOCK_LEN], data[BLOCK_LEN..], i);
    assert c == first + rest && data == data[..BLOCK_LEN] + data[BLOCK_LEN..];
    if i > 0 {
      CbcBlockEquation(p, key, first, data[BLOCK_LEN..], i - 1);
      BlocksOfConcat(first, rest, i - 1);
    }
  }

  /** The blocks of a block and what follows it. */
  lemma BlocksOfConcat(first: bytes, rest: bytes, i: nat)
    requires |first| == BLOCK_LEN && i * BLOCK_LEN <= |rest|
    ensures BlockAt(first + rest, i) == if i == 0 then first else BlockAt(rest, i - 1)
  {
  }

  // ---------- the cipher BSP calls ----------

  function Encrypted(p: Suite, sEnc: bytes, plaintext: bytes, blockNumber: u32): Result<bytes> {
    var key :- AesKey(sEnc);
    var iv :- IcvValue(p, sEnc, blockNumber);
    Ok(CbcEncrypt(p, key, iv, Padded(plaintext)))
  }

  function Decrypted(p: Suite, sEnc: bytes, ciphertext: bytes, blockNumber: u32): Result<bytes> {
    var key :- AesKey(sEnc);
    var iv :- IcvValue(p, sEnc, blockNumber);
    if |ciphertext| % BLOCK_LEN != 0 then Err(Malformed) else Unpad(CbcDecrypt(p, key, iv, ciphertext))
  }

  method Encrypt(p: Suite, sEnc: bytes, plaintext: bytes, blockNumber: u32) returns (r: Result<bytes>)
    ensures r == Encrypted(p, sEnc, plaintext, blockNumber)
  {
    var iv :- Icv(p, sEnc, blockNumber);  // fails on the key lengths AesKey rejects, and only on those
    var key: Block := sEnc;
    var buf := Pad(plaintext);
    r := Ok(CbcEncrypt(p, key, iv, buf));
  }

  method Decrypt(p: Suite, sEnc: bytes, ciphertext: bytes, blockNumber: u32) returns (r: Result<bytes>)
    ensures r == Decrypted(p, sEnc, ciphertext, blockNumber)
  {
    var iv :- Icv(p, sEnc, blockNumber);  // fails on the key lengths AesKey rejects, and only on those
    var key: Block := sEnc;
    if |ciphertext| % BLOCK_LEN != 0 {
      return Err(Malformed);
    }
    var plain := CbcDecrypt(p, key, iv, ciphertext);
    r := Unpad(plain);
  }

  /**
    Encryption succeeds exactly under a 16-byte key, grows the data to the next multiple of the
    block length strictly above it, and decryption under the same number undoes it.
   */
  lemma DecryptUndoesEncrypt(p: Suite, sEnc: bytes, plaintext: bytes, blockNumber: u32)
    requires p.AesIsPermutation()
    ensures Encrypted(p, sEnc, plaintext, blockNumber).Ok? <==> |sEnc| == BLOCK_LEN
    ensures |sEnc| == BLOCK_LEN ==>
              var c := Encrypted(p, sEnc, plaintext, blockNumber).value;
              && |c| % BLOCK_LEN == 0
              && |c| - BLOCK_LEN <= |plaintext| < |c|
              && Decrypted(p, sEnc, c, blockNumber) == Ok(plaintext)
  {
    if |sEnc| == BLOCK_LEN {
      CbcDecryptUndoesEncrypt(p, sEnc, IcvValue(p, sEnc, blockNumber).value, Padded(plaintext));
      UnpadUndoesPad(plaintext);
    }
  }

  /**
    Decryption succeeds with `plaintext` exactly on the CBC encryption, from the encrypted block
    number on, of the plaintext, the marker and zeroes. In every other case it reports `Malformed`.
   */
  lemma DecryptsExactly(p: Suite, sEnc: bytes, ciphertext: bytes, blockNumber: u32, plaintext: bytes)
    requires p.AesIsPermutation()
    ensures Decrypted(p, sEnc, ciphertext, blockNumber) == Ok(plaintext) <==>
            && |sEnc| == 16 && |ciphertext| % 16 == 0 && |plaintext| < |ciphertext|
            && ciphertext == CbcEncrypt(p, sEnc, p.aesEncrypt(sEnc, Zeros(12) + BigEndian32(blockNumber)),
                                        plaintext + [0x80] + Zeros(|ciphertext| - |plaintext| - 1))
    ensures Decrypted(p, sEnc, ciphertext, blockNumber).Err? ==>
              Decrypted(p, sEnc, ciphertext, blockNumber) == Err(Malformed)
  {
    if |sEnc| == 16 && |ciphertext| % 16 == 0 {
      StripsExactly(p, sEnc, p.aesEncrypt(sEnc, NumberBlock(blockNumber)), ciphertext, plaintext);
    }
  }

  lemma StripsExactly(p: Suite, key: Block, iv: Block, ciphertext: bytes, plaintext: bytes)
    requires p.AesIsPermutation() && |ciphertext| % 16 == 0
    ensures Unpad(CbcDecrypt(p, key, iv, ciphertext)) == Ok(plaintext) <==>
            && |plaintext| < |ciphertext|
            && ciphertext == CbcEncrypt(p, key, iv, plaintext + [0x80] + Zeros(|ciphertext| - |plaintext| - 1))
  {
    var padded := CbcDecrypt(p, key, iv, ciphertext);
    UnpadCharacterised(padded, plaintext);
    CbcEncryptUndoesDecrypt(p, key, iv, ciphertext);
    if |plaintext| < |ciphertext| {
      CbcDecryptUndoesEncrypt(p, key, iv, plaintext + [0x80] + Zeros(|ciphertext| - |plaintext| - 1));
    }
  }

  /** Under another ICV only the first block of the recovered data changes, and it does change. */
  lemma CbcDecryptUnderAnotherIcv(p: Suite, key: Block, iv: Block, other: Block, data: bytes)
    requires |data| % BLOCK_LEN == 0 && data != [] && iv != other
    ensures CbcDecrypt(p, key, other, data)[..BLOCK_LEN] != CbcDecrypt(p, key, iv, data)[..BLOCK_LEN]
    ensures CbcDecrypt(p, key, other, data)[BLOCK_LEN..] == CbcDecrypt(p, key, iv, data)[BLOCK_LEN..]
  {
    var raw := p.aesDecrypt(key, data[..BLOCK_LEN]);
    if XorBlock(raw, iv) == XorBlock(raw, other) {
      XorBlockCancels(iv, raw);
      XorBlockCancels(other, raw);
    }
    assert CbcDecrypt(p, key, iv, data)[..BLOCK_LEN] == XorBlock(raw, iv);
    assert CbcDecrypt(p, key, other, data)[..BLOCK_LEN] == XorBlock(raw, other);
  }

  /**
    Decrypting under another block number never returns the message. It is not always noticed
    either: from one block of plaintext on, it succeeds with only the first block wrong.
   */
  lemma WrongBlockNumberNeverReproduces(p: Suite, key: Block, plaintext: bytes, m: u32, n: u32)
    requires p.AesIsPermutation() && m != n
    ensures Decrypted(p, key, Encrypted(p, key, plaintext, m).value, n) != Ok(plaintext)
    ensures |plaintext| >= BLOCK_LEN ==>
              var r := Decrypted(p, key, Encrypted(p, key, plaintext, m).value, n);
              && r.Ok?
              && |r.value| == |plaintext|
              && r.value[..BLOCK_LEN] != plaintext[..BLOCK_LEN]
              && r.value[BLOCK_LEN..] == plaintext[BLOCK_LEN..]
  {
    var iv, other := IcvValue(p, key, m).value, IcvValue(p, key, n).value;
    if iv == other {
      IcvIsInjective(p, key, m, n);
    }
    var padded := Padded(plaintext);
    CbcDecryptUndoesEncrypt(p, key, iv, padded);
    CbcDecryptUnderAnotherIcv(p, key, iv, other, CbcEncrypt(p, key, iv, padded));
    UnpadOfChangedFirstBlock(plaintext, CbcDecrypt(p, key, other, CbcEncrypt(p, key, iv, padded)));
  }

  /** A block that is some data, the marker, and then only zeroes. */
  predicate EndsInPadding(block: bytes) {
    exists i :: 0 <= i < |block| && block[i] == 0x80 && forall k :: i < k < |block| ==> block[k] == 0x00
  }

  /** The one padded block of a short message, as decryption under another number gives it. */
  function GarbledBlock(p: Suite, key: Block, plaintext: bytes, m: u32, n: u32): Block
    requires |plaintext| < BLOCK_LEN
  {
    XorBlock(XorBlock(Padded(plaintext), IcvValue(p, key, m).value), IcvValue(p, key, n).value)
  }

  /**
    Decryption under another number fails exactly on a message of less than one block whose padded
    block, combined with both ICVs, no longer ends in padding; otherwise it succeeds.
   */
  lemma WrongBlockNumberFailsExactly(p: Suite, key: Block, plaintext: bytes, m: u32, n: u32)
    requires p.AesIsPermutation()
    ensures var r := Decrypted(p, key, Encrypted(p, key, plaintext, m).value, n);
            && (|plaintext| < BLOCK_LEN ==> r == Unpad(GarbledBlock(p, key, plaintext, m, n)))
            && (r.Err? <==> |plaintext| < BLOCK_LEN && !EndsInPadding(GarbledBlock(p, key, plaintext, m, n)))
  {
    if |plaintext| >= BLOCK_LEN {
      DecryptUndoesEncrypt(p, key, plaintext, m);
      if m != n {
        WrongBlockNumberNeverReproduces(p, key, plaintext, m, n);
      }
    } else {
      var garbled := GarbledBlock(p, key, plaintext, m, n);
      CbcOfOneBlock(p, key, IcvValue(p, key, m).value, IcvValue(p, key, n).value, Padded(plaintext));
      UnpadSucceedsExactly(garbled);
    }
  }

  lemma CbcOfOneBlock(p: Suite, key: Block, iv: Block, other: Block, block: Block)
    requires p.AesIsPermutation()
    ensures CbcDecrypt(p, key, other, CbcEncrypt(p, key, iv, block)) == XorBlock(XorBlock(block, iv), other)
  {
    var c: Block := p.aesEncrypt(key, XorBlock(block, iv));
    assert block[..BLOCK_LEN] == block && block[BLOCK_LEN..] == [];
    assert CbcEncrypt(p, key, iv, block) == c + [] == c;
    assert c[..BLOCK_LEN] == c && c[BLOCK_LEN..] == [];
    assert CbcDecrypt(p, key, other, c) == XorBlock(p.aesDecrypt(key, c), other) + [];
  }

  lemma UnpadSucceedsExactly(block: Block)
    ensures Unpad(block).Ok? <==> EndsInPadding(block)
  {
    if EndsInPadding(block) {
      var i :| 0 <= i < |block| && block[i] == 0x80 && forall k :: i < k < |block| ==> block[k] == 0x00;
      assert block == block[..i] + [0x80] + Zeros(|block| - i - 1);
      UnpadCharacterised(block, block[..i]);
    }
  }

  ghost predicate AesIsIdentity(p: Suite) {
    forall k: Block, b: Block :: p.aesEncrypt(k, b) == b && p.aesDecrypt(k, b) == b
  }

  /**
    Below one block both outcomes occur: with AES the identity, the empty message of block 1 is
    reported under number 2, and that of block 0x81 comes back as fifteen octets under number 1.
   */
  lemma ShortMessagesGoEitherWay(p: Suite, key: Block)
    requires AesIsIdentity(p)
    ensures Decrypted(p, key, Encrypted(p, key, [], 1).value, 2) == Err(Malformed)
    ensures Decrypted(p, key, Encrypted(p, key, [], 0x81).value, 1) == Ok([0x80] + Zeros(14))
  {
    SmallXors();
    EmptyMessageGarbled(p, key, 1, 2);
    EmptyMessageGarbled(p, key, 0x81, 1);
    WrongBlockNumberFailsExactly(p, key, [], 1, 2);
    WrongBlockNumberFailsExactly(p, key, [], 0x81, 1);
    SmallBlocks();
  }

  lemma SmallBlocks()
    ensures Unpad([0x80] + Zeros(14) + [0x03]) == Err(Malformed)
    ensures Unpad([0x80] + Zeros(14) + [0x80]) == Ok([0x80] + Zeros(14))
  {
    var front := [0x80] + Zeros(14);
    assert (front + [0x03])[15] == 0x03;
    UnpadSucceedsExactly(front + [0x03]);
    UnpadCharacterised(front + [0x80], front);
  }

  /** The empty message's block is the marker and zeroes; two small numbers change its last octet only. */
  lemma EmptyMessageGarbled(p: Suite, key: Block, m: u32, n: u32)
    requires AesIsIdentity(p)
    requires m < 0x100 && n < 0x100
    ensures GarbledBlock(p, key, [], m, n) == [0x80] + Zeros(14) + [Xor(m as byte, n as byte)]
  {
    SmallNumberBlock(m);
    SmallNumberBlock(n);
    var a, b: Block := NumberBlock(m), NumberBlock(n);
    var block: Block := Padded([]);
    XorWithZero(0x80);
    XorWithZero(m as byte);
    XorWithZero(0);
    assert XorBlock(block, a) == [0x80] + Zeros(14) + [m as byte];
    assert XorBlock(XorBlock(block, a), b) == [0x80] + Zeros(14) + [Xor(m as byte, n as byte)];
  }

  lemma SmallNumberBlock(n: u32)
    requires n < 0x100
    ensures NumberBlock(n) == Zeros(15) + [n as byte]
  {
    assert BigEndian32(n) == [0, 0, 0, n as byte];
  }

  lemma XorWithZero(a: byte)
    ensures Xor(a, 0) == a && Xor(0, a) == a
  {
    BitXorCancels(0, a as nat);
    BitXorIsZeroOnlyOnEqual(BitXor(0, a as nat), a as nat);
    BitXorCommutes(a as nat, 0);
  }

  lemma SmallXors()
    ensures Xor(1, 2) == 0x03 && Xor(0x81, 1) == 0x80
  {
    XorWithZero(1);
    XorWithZero(0x40);
    assert BitXor(1, 2) == 1 + 2 * BitXor(0, 1);
    assert BitXor(0x81, 1) == 2 * BitXor(0x40, 0);
  }

  /** What stripping makes of a padded message whose first block was changed. */
  lemma UnpadOfChangedFirstBlock(plaintext: bytes, got: bytes)
    requires |got| == |Padded(plaintext)|
    requires got[..BLOCK_LEN] != Padded(plaintext)[..BLOCK_LEN]
    requires got[BLOCK_LEN..] == Padded(plaintext)[BLOCK_LEN..]
    ensures Unpad(got) != Ok(plaintext)
    ensures |plaintext| >= BLOCK_LEN ==> Unpad(got) == Ok(got[..BLOCK_LEN] + plaintext[BLOCK_LEN..])
    ensures |plaintext| >= BLOCK_LEN ==> got[..BLOCK_LEN] != plaintext[..BLOCK_LEN]
  {
    UnpadCharacterised(got, plaintext);
    if |plaintext| >= BLOCK_LEN {
      var front := got[..BLOCK_LEN] + plaintext[BLOCK_LEN..];
      assert got == got[..BLOCK_LEN] + got[BLOCK_LEN..];
      assert Padded(plaintext)[BLOCK_LEN..] == plaintext[BLOCK_LEN..] + [0x80] + Zeros(PaddingLength(|plaintext|));
      assert got == front + [0x80] + Zeros(PaddingLength(|plaintext|));
      UnpadCharacterised(got, front);
      assert Padded(plaintext)[..BLOCK_LEN] == plaintext[..BLOCK_LEN];
    }
  }
}
