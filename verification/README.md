# euicc-crypto: a verified model

A Dafny model of the byte-level code of the `euicc-crypto` crate, and proofs about it. Three parts
are covered, each from its octets up:

- **BSP secure messaging** (sections 2.6.4.2 to 2.6.4.5 of SGP.22): key derivation, CBC with
  `80 00…` padding and an encrypted block number as ICV, the C-MAC and its chaining value, the TLV
  framing, and whole runs of a sender and a receiver.
- **DER certificates** (section 4.1 of RFC 5280, sections 8.1.2 and 8.1.3 of ITU-T X.690): the
  printer that issues test certificates, the readers of keys, curves, signed bytes and extensions,
  and the choice of a CI key.
- **PEM, base64 and PKCS#8** (section 4 of RFC 4648): the line walk, the decoder, the wrapper for
  private keys.

## How it is modelled

There is one module per source file or part of one. `Bytes` holds octets, big-endian integers, the
bitwise operations and the result type; `Primitives` holds what the crate takes from libraries.

AES, AES-CMAC, SHA-256, ECDSA and the test for points on a curve are fields of a `Suite`: any
functions of the right shape. What a theorem assumes about them is in its `requires`: that AES under
a key is a permutation (`AesIsPermutation`), that a signature verifies under its own key
(`SigningIsCorrect`), and for indivisibility that no offered MAC was forged (`Unforged`).

Where the source updates something step by step (the chaining buffer, an accumulator, a vector, the
key set), there is a method that does the same, proved equal to a function of its inputs; the
theorems are about those functions. What such a function answers is then said once more without it,
octet for octet: `CertificateGrammar`, `ExtensionGrammar`, `IssuedFields` and `Base64Chunks`, and
lemmas named `…Exactly` beside the function. `usize` is unbounded here: no length in the modelled
code comes near 64 bits. Error messages are left out, so an error is one of the crate's kinds.

## What is proved

- `BspSession.AcceptedBlocksArePrefix` and `BspSession.IndivisibleExactlyWhenChainsDistinct`: for
  every session and every sequence of byte strings offered to the receiver, forgeries excluded, what
  it accepts is a prefix of what was sent, and this holds for all such runs exactly when no chaining
  value repeats.
- `BspSession.SessionsSynchronise`: every session that wraps is recovered, block by block, with equal
  chaining values.
- `Bsp.UnwrapExactly`: for any block at any chaining value, when unwrapping succeeds and with what, and
  which error it gives otherwise.
- `Bsp.FramingRoundTrip`, `Bsp.MacInputIsInjective`, `Bsp.MacCoversTheWire`: the framing decodes back
  exactly for framable TLVs, the MAC input determines all its parts, and it is the wire form.
- `Cbc128.WrongBlockNumberFailsExactly`, `Cbc128.UnpadCharacterised`: when a wrong block number is
  noticed, and what stripping accepts.
- `CertificateGrammar.FromDerExactly`, `CertificateGrammar.SignedExactly`,
  `CertificateGrammar.NamedCurveExactly`: the inputs each certificate reader accepts are those of a
  grammar, and what it returns is what the grammar says.
- `Certificates.*`, `CertificateExtensions.*`, `IssuedFields.IssuedFieldsReadBack`: issued certificates
  read back, field by field and octet by octet.
- `X509Extensions.SearchReturnsExactly`, `ExtensionGrammar.*`: what the search for an extension
  returns, without its steps, and what the three readers make of it.
- `Ci.VerdictIsExact`, `Ci.IssuedCertificateIsAccepted`, `Ci.AcceptanceCoversOwnTbs`: the four
  verdicts, each exactly when, and what an acceptance says about the certificate.
- `Pem.RunFailsExactlyOnMismatch`, `Pem.BlocksAreClosedPairs`, `Pem.DocumentReadsBack`,
  `Base64Chunks.DecodesExactly`, `Base64.OnlyCanonicalTextsAreEncodings`.

## Where the code and its documentation disagree

The model follows the code. Each entry names the lemmas that say when the documented behaviour
holds and give inputs where it does not.

- `cbc128.rs:70-72` says padding without a marker in the final block is reported. The marker is
  searched for in the whole buffer (`cbc128.rs:80`): `Cbc128.UnpadAcceptsMoreThanPadProduces`,
  `Cbc128.UnpadAcceptsAnEarlierMarker`.
- `cbc128.rs:241-243` names a test after a wrong block number failing loudly. It fails only on some
  messages under one block, and otherwise gives another message: `Cbc128.WrongBlockNumberFailsExactly`,
  `Cbc128.ShortMessagesGoEitherWay`, `Cbc128.WrongBlockNumberNeverReproduces`.
- `bsp.rs:26-29` says a reordered or dropped block makes the following MAC fail. That needs chaining
  values that do not repeat, and a dropped tail has no following MAC:
  `BspSession.IndivisibleExactlyWhenChainsDistinct`.
- `bsp.rs:253-258` takes any `u32` as an encoded tag. Tags the reader cannot read break the framing
  and the MAC input: `Bsp.FramingRoundTrip`, `Bsp.MalformedTagMakesMacInputAmbiguous`,
  `Bsp.MalformedTagIsRelabelled`, `BspSession.SessionsSynchroniseExactly`.
- `testpki.rs:374-375` has the serial number minimally encoded: `TestPki.SerialNumberAsInteger`.
- `testpki.rs:341-357` shows certificates without extensions and an outer algorithm without NULL. The
  code always writes both: `Certificates.IssuedStructure`.
- `x509.rs:730-731` places the tbsCertificate by counting from the end of the input, so octets after
  the certificate move it. What verifies is what is read where nothing follows, and need not be
  otherwise: `X509.SignedBytesAreShiftedByTrailing`, `X509.VerificationCoversOwnTbs`,
  `Ci.AcceptanceCoversOwnTbs`, `Certificates.TrailingOctetMovesSignedBytes`,
  `Ci.AcceptanceNeedsNothingToFollow`.
- `x509.rs:433` speaks of the extension carrying an OID; the search takes the first octets that look
  like one, anywhere: `X509Extensions.SearchReturnsExactly`,
  `CertificateExtensions.IssuedExtensionIsFound`, `CertificateExtensions.LookalikeLabelIsReadInstead`.
- `x509.rs:475` says a SEQUENCE occupies the whole buffer; octets after it are ignored:
  `X509Extensions.UnwrappedIsWholeBuffer`, `X509Extensions.UnwrapIgnoresTrailing`.
- `sgp26.rs:580` says a block's header contains the wanted label; the labels are compared for equality:
  `Pem.ChoiceIsDocumentedExactly`, `Pem.ContainedNameIsRefused`.
- `sgp26.rs:626` says the decoder rejects rather than guesses; it takes padding anywhere and stray
  bits: `Base64.PaddingIsAcceptedAnywhere`, `Base64.OnlyCanonicalTextsAreEncodings`.

## Model

| member | source | states |
|---|---|---|
| BspSession.AcceptedBlocksArePrefix | src/bsp.rs:24-33 | for every unforged run over arbitrary offered bytes, rejected ones included, the accepted TLVs are a prefix of those sent, the receiver's chain is the sender's after that prefix, and a plaintext comes back if and only if it is unwrapped under the protection it was wrapped with |
| BspSession.IndivisibleExactlyWhenChainsDistinct | src/bsp.rs:24-33 | all unforged runs accept only prefixes if and only if the session's chaining values are pairwise distinct |
| BspSession.RepeatedChainAdmitsReplay | src/bsp.rs:24-33 | where a chaining value recurs, a run without any forged MAC accepts something that is not a prefix |
| BspSession.GenuineOfferIsNextBlock | src/bsp.rs:116-147 | a block whose MAC verifies and was computed by the sender is the very block sent next |
| BspSession.SessionsSynchronise | src/bsp.rs:72-147 | a receiver offered the encoded blocks, each with any bytes after it, recovers every plaintext in order and holds the sender's chain after each block |
| BspSession.SessionsSynchroniseExactly | src/bsp.rs:150-176 | a faithfully carried session is recovered in full if and only if all its tags are well formed |
| BspSession.ReceiveInPlace | src/bsp.rs:116-176 | decoding and unwrapping with the caller's buffer is one step of the receiver the run theorems are about |
| BspSession.ChainFollowsDeliveries | src/bsp.rs:116-147 | in any run at all the chain is the initial one or has 16 octets beginning with the last accepted C-MAC |
| Bsp.WrapEncrypt | src/bsp.rs:72-90 | the TLV and the chaining buffer afterwards, for success and for every failure, which leaves the buffer as it was |
| Bsp.WrapMacOnly | src/bsp.rs:93-108 | the same for data in the clear |
| Bsp.UnwrapEncrypt | src/bsp.rs:116-131 | the plaintext and the chaining buffer afterwards; the MAC is checked before decryption, and any failure leaves the buffer as it was |
| Bsp.UnwrapMacOnly | src/bsp.rs:134-147 | the same for data in the clear |
| Bsp.WrapSucceedsExactly | src/bsp.rs:72-108 | wrapping succeeds exactly for 16-octet chain and keys and a final length of at most 0xFFFF |
| Bsp.WrapExactly | src/bsp.rs:66-108 | wrapping gives a block exactly when it is the data or the CBC encryption of it with 0x80 and zeroes, with the CMAC over chain, tag, length and data and its first 8 octets; it fails only as malformed |
| Bsp.UnwrapExactly | src/bsp.rs:110-147 | for any block and chain, unwrapping succeeds if and only if the MAC can be computed and begins with the one carried and the data is, or decrypts to, the plaintext with 0x80 and zeroes; a differing MAC is a verification failure, and everything else is malformed |
| Bsp.RecoveredOnlyAsCarried | src/bsp.rs:72-147 | a carried field gives its plaintext back if and only if it is taken under the protection and block number it was made with, encrypted or in the clear |
| Bsp.UnwrapUndoesWrap | src/bsp.rs:110-131 | unwrapping at the same chaining value returns the plaintext and the same next chaining value |
| Bsp.WrongMacIsReportedBeforeDecryption | src/bsp.rs:112-126 | verification failure is reported exactly when the C-MAC can be computed and differs, whatever the data decrypts to |
| Bsp.EncryptedFieldIsCbc | src/bsp.rs:79 | each block of the carried field is the AES encryption under S-ENC of the padded plaintext block combined with the ciphertext block before it, the first with the encrypted block number |
| Bsp.MacCoversTheWire | src/bsp.rs:79-108 | the encoded TLV without its last 8 octets is the MAC input without the chaining value, and those 8 octets begin the new chaining value |
| Bsp.MacInputIsInjective | src/bsp.rs:226-252 | for well-formed tags the MAC input determines chaining value, tag, final length and data |
| Bsp.MalformedTagMakesMacInputAmbiguous | src/bsp.rs:259-274 | a concrete pair of different blocks with one MAC input, one of whose tags is not well formed |
| Bsp.MalformedTagIsRelabelled | src/bsp.rs:253-274 | under any keys and chain, a concrete block wrapped under a malformed tag is decoded and accepted from its own bytes with another tag and other data |
| Wire.TagOctetsAreMinimal | src/bsp.rs:253-274 | a tag is written as its big-endian octets without leading zeroes |
| Bsp.FullCmac | src/bsp.rs:226-252 | the fields are fed in the order of section 2.6.4.4, and the failures are a wrong chain length, a wrong key length and a length over 0xFFFF |
| Bsp.ComputeCmac | src/bsp.rs:179-188 | the transmitted C-MAC is the first 8 octets of the full one |
| Bsp.FramingRoundTrip | src/bsp.rs:150-176 | decoding an encoding with any bytes after it gives the TLV back if and only if its tag is well formed, its MAC has 8 octets and its length fits |
| Bsp.DecodedIsStable | src/bsp.rs:161-176 | everything decoded has a well-formed tag and an 8-octet MAC, and re-encodes stably exactly up to the length bound |
| Bsp.DecodedExactly | src/bsp.rs:156-176 | an input decodes to a block if and only if it begins with its tag, the length in an accepted form, and the data followed by 8 octets of MAC |
| Bsp.ChainBeginsWithCmac | src/bsp.rs:116-147 | after a successful unwrap the chain has 16 octets and begins with the accepted C-MAC |
| Kdf.ConstantTimeEq | src/kdf.rs:114-123 | the or of the differences is zero exactly on equal sequences, so the comparison is equality |
| Cbc128.Icv | src/cbc128.rs:44-52 | the ICV of a key and number, or an error on a wrong key length |
| Cbc128.IcvDecryptsToTheNumber | src/cbc128.rs:44-52 | decrypting the ICV as a block gives the block number as a big-endian integer |
| Cbc128.IcvIsInjective | src/cbc128.rs:44-52 | under one key different block numbers have different ICVs |
| Cbc128.Pad | src/cbc128.rs:59-66 | the loop appends the marker and as many zeroes as reach the next multiple of 16 |
| Cbc128.UnpadCharacterised | src/cbc128.rs:73-97 | stripping succeeds with d exactly on non-empty whole blocks that are d, 0x80 and zeroes |
| Cbc128.UnpadUndoesPad | src/cbc128.rs:59-97 | stripping undoes padding for all data |
| Cbc128.UnpadAcceptsMoreThanPadProduces | src/cbc128.rs:68-97 | what padding produces is a prefix of every buffer that strips to the same data, and is that buffer exactly when the marker is in its final block |
| Cbc128.UnpadAcceptsAnEarlierMarker | src/cbc128.rs:68-97 | a concrete accepted buffer that padding never produces |
| Cbc128.LastPosition | src/cbc128.rs:80 | the last occurrence, or none |
| Cbc128.CbcBlockEquation | src/cbc128.rs:104-114 | the defining equation of CBC for every block |
| Cbc128.CbcDecryptUndoesEncrypt | src/cbc128.rs:104-128 | CBC decryption undoes CBC encryption for any number of blocks |
| Cbc128.CbcEncryptUndoesDecrypt | src/cbc128.rs:104-128 | and the other way round, so that every whole number of blocks is a ciphertext |
| Cbc128.XorBlockIsBitwise | src/cbc128.rs:104-128 | the combination of blocks adds each pair of bits without carry |
| Cbc128.Encrypt | src/cbc128.rs:104-114 | the ciphertext, or an error on a wrong key length |
| Cbc128.Decrypt | src/cbc128.rs:117-128 | the stripped plaintext, or an error on a wrong key, a partial block or bad padding |
| Cbc128.DecryptsExactly | src/cbc128.rs:68-128 | decryption gives a plaintext if and only if the ciphertext is the CBC encryption, from the encrypted block number on, of it with 0x80 and zeroes; every other ciphertext and key is malformed |
| Cbc128.DecryptUndoesEncrypt | src/cbc128.rs:104-128 | encryption succeeds exactly under 16-octet keys, its length is the least multiple of 16 above the plaintext's, and decryption under the same number undoes it |
| Cbc128.WrongBlockNumberNeverReproduces | src/cbc128.rs:104-128 | decryption under another number never returns the message; from 16 octets on it succeeds with exactly the first block wrong |
| Cbc128.WrongBlockNumberFailsExactly | src/cbc128.rs:104-128 | it fails if and only if the message has under 16 octets and its padded block, combined with both ICVs, does not end in padding |
| Cbc128.ShortMessagesGoEitherWay | src/cbc128.rs:239-252 | two concrete short messages under a wrong number, one reported and one returned as another message |
| X963.X963Kdf | src/x963.rs:42-69 | the counter loop computes the hash stream cut to length, or an error |
| X963.KdfIsCounterMode | src/x963.rs:42-69 | it answers exactly from 1 to 288 octets, and octet j is octet j % 32 of the hash of secret, four-octet counter j / 32 + 1 and shared info |
| X963.ShorterRequestIsPrefix | src/x963.rs:42-69 | a shorter request is a prefix of a longer one |
| X963.BspSharedInfo | src/x963.rs:84-110 | the fields in order with one-octet length prefixes, or an error for an identifier over 255 octets |
| X963.SharedInfoLayout | src/x963.rs:75-110 | where each field and length octet is, and the error exactly for an identifier over 255 octets |
| X963.SharedInfoIsInjective | src/x963.rs:84-110 | the shared info determines all four inputs |
| BspKeys.DeriveFollowsTable4c | src/bsp_keys.rs:72-103 | derivation succeeds exactly for key lengths 1 to 96 and identifiers up to 255 octets; the keys are, in the order of Table 4c, the thirds of the hashes of secret, counter, 01 or 02, key length, and each identifier after its length |
| BspKeys.SplitFollowsTable4c | src/bsp_keys.rs:89-103 | any key data of at least three key lengths is split into its first, second and third key length, and less is an error |
| BspKeys.EveryComponentReachesTheHash | src/bsp_keys.rs:72-83 | derivations that differ in any component hash different octets, written out |
| Wire.ReadLength | src/wire.rs:107-130 | the shift-and-or loop reads the big-endian length of every accepted form and rejects the rest |
| Wire.LengthFieldExactly | src/wire.rs:107-130 | a length is read if and only if it is one octet under 0x80, or 0x80 plus a count of one to four and as many octets not beginning with zero, and with that value |
| Wire.LengthRoundTrip | src/wire.rs:107-143 | reading undoes writing in front of any bytes if and only if the length is at most 0xFFFF |
| Wire.DerLengthIsShortest | src/wire.rs:132-143 | no accepted form of a length is shorter than the one written |
| Wire.TlvRoundTrip | src/wire.rs:78-104 | a written TLV reads back in front of any bytes if and only if its tag is well formed and its length fits |
| Wire.ReadTlvExactly | src/wire.rs:78-104 | a TLV is read if and only if the input begins with a one- or two-octet tag, a length in an accepted form, and so many octets |
| Wire.ReadTagIsWellFormed | src/wire.rs:78-91 | every tag read is well formed |
| Wire.HeaderIsPrefixFree | src/wire.rs:78-143 | tags with lengths form a prefix-free code |
| Wire.EncodeSignatureBytes | src/wire.rs:40-45 | a signature is written as a TLV of tag 5F37 |
| Wire.SignatureRoundTrip | src/wire.rs:40-71 | it parses back if and only if its length fits, and only fields that begin 5F 37 parse |
| X509.ReadLength | src/x509.rs:805-832 | the second copy of the length loop reads the same lengths |
| X509.ReadersAgree | src/x509.rs:492-506 | the short-form reader succeeds exactly where the long one does with a short length, with the same result, and the two-octet-tag reader agrees on one-octet tags |
| X509.ReadTlvAnyUndoesDerTlv | src/x509.rs:787-802 | a printed TLV reads back in front of any bytes up to 0xFFFF octets and never beyond |
| X509.ReadTlvAnyExactly | src/x509.rs:787-802 | a TLV is read if and only if the input begins with a tag octet, a length in an accepted form, and so many octets |
| X509.ElementsUndoPrinting | src/x509.rs:556-574 | walking a printed list of TLVs gives the list |
| X509.ElementsTileInput | src/x509.rs:556-574 | a walk ends with some elements if and only if the input is their TLVs laid end to end |
| X509.ExtractSpkiPublicKey | src/x509.rs:541-617 | the loop by position returns the key of the element at that position of the parsed list, or the same error |
| CertificateGrammar.CurveIsNamedExactly | src/x509.rs:626-661 | a curve is read if and only if the OID id-ecPublicKey is followed by that curve's OID, both written out |
| CertificateGrammar.FromDerExactly | src/x509.rs:44-59 | a certificate is read with a key if and only if its sixth element, or seventh after a version, is an algorithm naming the curve and a BIT STRING of a zero octet and the 65 octets of an uncompressed point on it; a point that is none is malformed, and everything else no certificate |
| X509.CertificateNamedCurveOid | src/x509.rs:669-717 | the loop by shape returns the OID of the first shaped element it reaches |
| CertificateGrammar.NamedCurveExactly | src/x509.rs:669-717 | an OID is returned if and only if, after readable elements without the shape, an element has it and names that OID, whatever follows |
| X509.CurveReadersAgree | src/x509.rs:541-717 | on every accepted certificate the reader by shape gives the first shaped element's OID, and agrees with the reader by position exactly when no earlier shaped element names another curve |
| X509.CurveReadersAgreeOnPlainCertificates | src/x509.rs:541-717 | they agree where no SEQUENCE before the SPKI begins with a nested SEQUENCE |
| X509.SignedBytesAreShiftedByTrailing | src/x509.rs:725-768 | the signed bytes begin after the tbsCertificate by as many octets as follow the certificate, so at the same place if and only if nothing does |
| CertificateGrammar.SignedExactly | src/x509.rs:725-768 | bytes and signature are extracted if and only if the input begins with a SEQUENCE of tbsCertificate, algorithm and BIT STRING, and which they are, with any octets after it |
| CertificateGrammar.VerificationExactly | src/x509.rs:527-532 | verification succeeds or fails as the key verifies those bytes, and is an error where there are none |
| X509.VerificationCoversOwnTbs | src/x509.rs:527-532 | where nothing follows the certificate, verification succeeds if and only if the signature verifies over the tbsCertificate TLV that is read |
| X509.FollowingTlvCountsAsSigned | src/x509.rs:725-768 | a certificate read with one tbsCertificate and taken as signed over another TLV, which follows it |
| X509.SplitBodyUndoesPrinting | src/x509.rs:749-767 | the walk over a printed body finds the end of the tbsCertificate and the signature |
| X509Extensions.FoundIsAWrittenExtension | src/x509.rs:443-470 | a position yields a value if and only if the OID, a flag of whatever short contents or none, and an OCTET STRING of that short value are written there |
| ExtensionGrammar.DecisionExactly | src/x509.rs:443-470 | the positions where the search gives up and where it goes on, each if and only if, in terms of the octets after the OID |
| X509Extensions.ExtensionValue | src/x509.rs:439-473 | the loop returns the outcome of the search |
| X509Extensions.SearchFindsFirstDecision | src/x509.rs:439-473 | the outcome is the one of the first position that is not skipped, wherever it is |
| X509Extensions.SearchReturnsExactly | src/x509.rs:439-473 | the search returns a value if and only if the first position that stops it holds an extension with that value |
| X509Extensions.SearchReadsFirstExtension | src/x509.rs:439-473 | where an extension is written and nothing earlier stops the search, the value is returned exactly when its length is short-form |
| X509Extensions.UnwrappedIsWholeBuffer | src/x509.rs:475-483 | what is unwrapped occupies the whole buffer if and only if the buffer ends where its length says |
| X509Extensions.UnwrapIgnoresTrailing | src/x509.rs:475-483 | a concrete buffer with an octet after its SEQUENCE is unwrapped |
| X509Extensions.AuthorityKeyIdentifier | src/x509.rs:206-218 | the loop returns the first member tagged 0x80 |
| ExtensionGrammar.KeyIdentifierExactly | src/x509.rs:206-218 | the key identifier is the first member tagged 0x80 after any others that can be read, and only that |
| X509Extensions.CertificatePolicies | src/x509.rs:232-256 | the loop collects the OIDs of the entries up to the first unreadable one |
| ExtensionGrammar.PoliciesExactly | src/x509.rs:232-256 | the policies are the OIDs that begin the SEQUENCE entries, in order, qualifiers or not, up to where the list cannot be read further |
| ExtensionGrammar.SubjectAltNameExactly | src/x509.rs:149-159 | the entity is the content of the first name, of whatever kind and whatever follows it |
| TestPki.BuildCertificate | src/testpki.rs:358-519 | the certificate built piece by piece is the one of the eight fields, the algorithm and the signature over the tbsCertificate TLV |
| IssuedFields.IssuedFieldsReadBack | src/testpki.rs:358-519 | the reader finds version 3, serial, algorithm, Name, validity, the same Name, key and extensions in this order, each octet for octet, the policies extension alone critical, and the signature over the tbsCertificate TLV |
| TestPki.BuildExtensions | src/testpki.rs:430-478 | the key identifier always, then the role and the entity where there are any |
| TestPki.SerialNumberAsInteger | src/testpki.rs:372-382 | the serial number is never negative, keeps the hash's value, and is minimal exactly unless the hash begins 00 and an octet under 0x80 |
| Certificates.TbsReadsBack | src/testpki.rs:484-497 | the issued tbsCertificate parses into exactly the eight fields in order, whatever octets follow the certificate |
| Certificates.IssuedStructure | src/testpki.rs:341-357 | a certificate is its tbsCertificate, an algorithm of OID and NULL, and the signature, and always carries the eighth field of extensions |
| Certificates.IssuedKeyReadsBack | src/x509.rs:541-617 | an issued certificate that fits, with any octets after it, yields the subject's curve and point, if and only if they are a public key |
| Certificates.IssuedSignatureReadsBack | src/x509.rs:725-768 | the bytes extracted are the tbsCertificate TLV that was signed, with the signature made over it |
| Certificates.IssuedCertificateVerifies | src/x509.rs:527-532 | an issued certificate verifies under its issuer's key |
| Certificates.TrailingOctetMovesSignedBytes | src/x509.rs:725-768 | every issued certificate with one octet after it is still read, with the same key, and other bytes than its tbsCertificate count as signed |
| Certificates.FollowingTbsIsVerifiedInstead | src/x509.rs:527-532 | an input read as one request's certificate that verifies over the tbsCertificate issued for another |
| Certificates.AlikeRequestsPrintAlike | src/testpki.rs:358-519 | requests that differ in label and subject key but in no length give tbsCertificates of one length |
| Certificates.IssuedCurveReadsBack | src/x509.rs:669-717 | the reader by shape finds the subject's curve in an issued certificate |
| CertificateExtensions.IssuedExtensionIsFound | src/x509.rs:439-473 | the search stops at an issued extension if and only if no earlier position stops it, and then returns the value exactly when it is short-form; otherwise the first earlier position that stops it gives the answer |
| CertificateExtensions.IssuedEntityReadsBack | src/x509.rs:149-159 | where nothing earlier stops the search, the entity OID is read back if and only if it has at most 123 octets |
| CertificateExtensions.IssuerKeyIdReadsBack | src/testpki.rs:432-445 | the first 20 octets of the hash of the issuer's key are read back |
| CertificateExtensions.IssuedRoleReadsBack | src/testpki.rs:447-464 | the role is read back past the critical flag, alone, if and only if it has at most 121 octets |
| CertificateExtensions.AbsentExtensionsAreAbsent | src/x509.rs:147-159 | an extension whose OID occurs nowhere is reported as absent |
| CertificateExtensions.LookalikeLabelIsReadInstead | src/x509.rs:439-473 | an ASCII label that spells an extension is read in its place |
| Ci.MatchingIsPrefixing | src/ci.rs:124-134 | identifiers match exactly when both are non-empty and one is a prefix of the other |
| Ci.CiKeySet.Add | src/ci.rs:64-66 | the key is appended |
| Ci.CiKeySet.VerifyServerCertificate | src/ci.rs:94-116 | the filter and the loop return the selection from the keys in the set |
| Ci.VerdictIsExact | src/ci.rs:88-116 | each verdict holds exactly when: no identifier, no match, matches none of which verifies, or this is the first inserted key that matches and verifies |
| Ci.LaterAddsKeepAcceptance | src/ci.rs:62-66 | keys added later never change an acceptance and never turn a match into no match |
| Ci.IssuedCertificateIsAccepted | src/ci.rs:88-116 | an issued certificate is accepted whenever its issuer's key is in the set under a matching identifier |
| Ci.AcceptanceCoversOwnTbs | src/ci.rs:88-116 | where nothing follows an accepted certificate, the tbsCertificate its key is read from verifies under a key in the set that the request matches |
| Ci.AcceptanceNeedsNothingToFollow | src/ci.rs:88-116 | without that condition, an accepted input whose key is read from a tbsCertificate other than the signed one |
| Pem.PemBlockToDer | src/sgp26.rs:582-621 | the line loop computes the run of the state machine, the choice of a block and its decoding |
| Pem.RunFailsExactlyOnMismatch | src/sgp26.rs:595-605 | the line walk fails if and only if some END line names another block than the BEGIN line it closes |
| Pem.DocumentReadsBack | src/sgp26.rs:565-621 | every text of rendered blocks, with either line end and whitespace around its lines, gives the last block's octets, or those of the first with the wanted label, or an error if there is none |
| Pem.ChoiceIsDocumentedExactly | src/sgp26.rs:580-621 | the block chosen is the first whose name contains the wanted one if and only if there is no such block or its name equals the wanted one |
| Pem.ContainedNameIsRefused | src/sgp26.rs:580-621 | a concrete file whose block's name contains the wanted one and which is refused |
| Pem.LinesUndoJoining | src/sgp26.rs:590 | joined lines are split into the same lines |
| Pem.LinesExactly | src/sgp26.rs:590 | the lines of a text are those it is made of, with LF or CRLF ends in any mix and the last one possibly without |
| Pem.TrimExactly | src/sgp26.rs:591 | trimming leaves what is between whitespace and neither begins nor ends in any |
| Pem.WhitespaceIsTrimmed | src/sgp26.rs:591 | the characters trimmed are the 25 of Unicode's White_Space property |
| Pem.ClassifyExactly | src/sgp26.rs:591-609 | a line is a BEGIN or an END of a name if and only if, trimmed, it is that word, the name between whitespace, and any number of dashes; otherwise it is text |
| Pem.BlocksAreClosedPairs | src/sgp26.rs:586-610 | the blocks of a walk that does not fail are those of the BEGIN lines that an END line closes with only text between, in order, with that text |
| Base64.Base64Decode | src/sgp26.rs:627-667 | the chunk loop computes the decoding of the text without its whitespace |
| Base64.DecodeChunk | src/sgp26.rs:645-665 | or-ing shifted sextets computes the octets four characters spell, less one for each padding character |
| Base64Chunks.SextetIsPosition | src/sgp26.rs:628-637 | a character stands for its position in the alphabet, which is written out |
| Base64Chunks.StrippedOfConcat | src/sgp26.rs:638 | whitespace is stripped character by character |
| Base64Chunks.StrippedCharacter | src/sgp26.rs:638 | the characters stripped are space, tab, line feed, form feed and carriage return |
| Base64Chunks.DecodesExactly | src/sgp26.rs:627-667 | for every text, the octets are those of its chunks of four characters, six bits each, less those the padding takes; a text without such chunks is an error |
| Base64.DecodeUndoesEncode | src/sgp26.rs:627-667 | any text that is an encoding once its whitespace is removed decodes to the octets encoded |
| Base64.DecodeAcceptsExactly | src/sgp26.rs:638-655 | accepted are exactly whole chunks of alphabet and padding characters |
| Base64.OnlyCanonicalTextsAreEncodings | src/sgp26.rs:623-667 | decoding and encoding again gives an accepted text back if and only if only its last chunk is padded, at its end, without stray bits |
| Base64.PaddingIsAcceptedAnywhere | src/sgp26.rs:623-667 | a concrete text that encodes nothing and is decoded |
| Pkcs8.Sec1PrivateToPkcs8 | src/sgp26.rs:523-550 | the octets appended are the PrivateKeyInfo, or an error when it does not fit |
| Pkcs8.PrivateKeyInfoReadsBack | src/sgp26.rs:516-550 | the result is one SEQUENCE of version 0, an algorithm whose octets are written out for each curve, and the SEC1 octets unchanged, exactly when its contents fit |
| Pkcs8.LengthWritersAgree | src/sgp26.rs:553-563 | the third length writer equals the other two where it answers, and answers exactly where they can be read back |

## Left out

- AES, AES-CMAC, SHA-256, ECDSA and curve arithmetic, and key generation: functions of a suite.
- `aead.rs`, `ecdh.rs`, HKDF and HMAC in `kdf.rs`, and raw signatures in `ecdsa.rs`: thin wrappers around libraries.
- `cmac_raw` and `cmac_over_chaining` in `bsp.rs`: a library call, and another name for the full CMAC.
- `BspSessionKeys::is_well_formed`, `CiKeySet::contains` and `identifiers`: one-step checks.
- `subject_serial_number`, `subject_key_identifier`, the role OID table and its lookups in `x509.rs`: one-step readers over the same search.
- `webpki` in `Certificate::from_der`: a library's second opinion that does not change the result.
- Loading and checking the SGP.26 fixtures, `extract_sec1_point` and `private_key_from_pem` in `sgp26.rs`: files, and searches by trial through library parsers.
- The UTF-8 check in `pem_block_to_der`: the model starts from the decoded text, in which a character outside ASCII is never part of an encoding.
- The three copies of `der_length`: `wire.rs` and `testpki.rs` have the same body and share one function here; the third is `Pkcs8.DerLength`.
- The timing of the constant-time comparison: only its result.
- Certificates.IssuedKeyReadsBack: is about certificates whose contents have at most 0xFFFF octets, the most that the two length octets written can say.
