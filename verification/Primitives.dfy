/**
  The cryptographic primitives the crate takes from libraries, left uninterpreted.

  A `Suite` is any choice of functions with the right shapes. What a theorem assumes about
  them beyond their shapes is one of the predicates below, named in that theorem's `requires`.
 */
module Primitives {
  import opened Bytes

  /** A 16-byte AES block or key. */
  type Block = b: bytes | |b| == 16 witness Zeros(16)

  /** A SHA-256 digest. */
  type Digest = b: bytes | |b| == 32 witness Zeros(32)

  datatype CurveKind = P256 | BrainpoolP256r1 {
    /** The namedCurve OID contents. */
    function Oid(): (r: bytes)
      ensures |r| < 0x80
    {
      match this
      case P256 => [0x2A, 0x86, 0x48, 0xCE, 0x3D, 0x03, 0x01, 0x07]
      case BrainpoolP256r1 => [0x2B, 0x24, 0x03, 0x03, 0x02, 0x08, 0x01, 0x01, 0x07]
    }
  }

  /** A public key: a curve and a SEC1 uncompressed point. */
  datatype PublicKey = PublicKey(curve: CurveKind, point: bytes)

  /** A key pair, known only by what the suite's functions make of it. */
  datatype KeyPair = KeyPair(curve: CurveKind, secret: nat)

  const PUBLIC_KEY_LEN := 65

  datatype Suite = Suite(
    aesEncrypt: (Block, Block) -> Block,
    aesDecrypt: (Block, Block) -> Block,
    cmac: (Block, bytes) -> Block,
    sha256: bytes -> Digest,
    onCurve: (CurveKind, bytes) -> bool,
    publicPoint: KeyPair -> bytes,
    signDer: (KeyPair, bytes) -> bytes,
    verifyDer: (PublicKey, bytes, bytes) -> bool)
  {
    /** AES under any one key is a permutation of the blocks. */
    ghost predicate AesIsPermutation() {
      && (forall k: Block, b: Block :: aesDecrypt(k, aesEncrypt(k, b)) == b)
      && (forall k: Block, b: Block :: aesEncrypt(k, aesDecrypt(k, b)) == b)
    }

    /** The public half of a key pair. */
    function PublicKeyOf(kp: KeyPair): PublicKey {
      PublicKey(kp.curve, publicPoint(kp))
    }

    /** A signature verifies under the public half of the key that made it. */
    ghost predicate SigningIsCorrect() {
      forall kp: KeyPair, m: bytes :: verifyDer(PublicKeyOf(kp), m, signDer(kp, m))
    }

    /** What constructing a `PublicKey` from bytes checks. */
    predicate IsPublicKey(key: PublicKey) {
      |key.point| == PUBLIC_KEY_LEN && key.point[0] == 0x04 && onCurve(key.curve, key.point)
    }
  }
}
