/**
  Wrapping a SEC1 private key in a PKCS#8 `PrivateKeyInfo` (`sgp26.rs`).
 */
module Pkcs8 {
  import opened Bytes
  import opened Primitives
  import opened X509
  import Wire
  import Certificates
  import TestPki

  /** The third `der_length`: the only one that refuses what it cannot write. */
  function DerLength(len: nat): Result<bytes> {
    if len < 0x80 then Ok([len as byte])
    else if len <= 0xFF then Ok([0x81, len as byte])
    else if len <= 0xFFFF then Ok([0x82, (len / 0x100) as byte, (len % 0x100) as byte])
    else Err(Certificate)
  }

  /** It is the other two where it answers, and it answers exactly where they can be read back. */
  lemma LengthWritersAgree(len: nat, rest: bytes)
    ensures DerLength(len).Ok? ==> DerLength(len).value == Wire.DerLength(len)
    ensures DerLength(len).Ok? <==>
            Wire.LengthField(Wire.DerLength(len) + rest) == Some(Wire.Length(len, |Wire.DerLength(len)|))
  {
    Wire.LengthRoundTrip(len, rest);
  }

  /** The three members of a PrivateKeyInfo. */
  function Members(curve: CurveKind, sec1: bytes): seq<Element> {
    [Element(0x02, [0x00]), Element(0x30, TestPki.SpkiAlgorithm(curve)), Element(0x04, sec1)]
  }

  function Contents(curve: CurveKind, sec1: bytes): bytes {
    Concat(Encoded(Members(curve, sec1)))
  }

  function PrivateKeyInfo(curve: CurveKind, sec1: bytes): Result<bytes> {
    if |Contents(curve, sec1)| > Wire.MAX_LENGTH then Err(Certificate)
    else Ok(DerTlv(0x30, Contents(curve, sec1)))
  }

  method Sec1PrivateToPkcs8(curve: CurveKind, sec1: bytes) returns (r: Result<bytes>)
    ensures r == PrivateKeyInfo(curve, sec1)
  {
    var algId := AlgorithmIdentifier(curve);
    AlgorithmOctets(curve);
    ContentsAreInner(curve, sec1);
    var inner :- InnerOctets(algId, sec1);
    r := SequenceOctets(inner);
  }

  /** The outer SEQUENCE, piece by piece. */
  method SequenceOctets(inner: bytes) returns (r: Result<bytes>)
    ensures r == if |inner| > Wire.MAX_LENGTH then Err(Certificate) else Ok(DerTlv(0x30, inner))
  {
    var out: bytes := [];
    out := out + [0x30];
    var innerLength :- DerLength(|inner|);
    out := out + innerLength;
    out := out + inner;
    assert out == DerTlv(0x30, inner);
    r := Ok(out);
  }

  method AlgorithmIdentifier(curve: CurveKind) returns (algId: bytes)
    ensures algId == TestPki.SpkiAlgorithm(curve)
  {
    algId := [];
    algId := algId + [0x06];
    algId := algId + [0x07];
    algId := algId + [0x2A, 0x86, 0x48, 0xCE, 0x3D, 0x02, 0x01];
    algId := algId + [0x06];
    algId := algId + [|curve.Oid()| as byte];
    algId := algId + curve.Oid();
    AlgorithmOctets(curve);
  }

  function InnerContents(algId: bytes, sec1: bytes): bytes {
    [0x02, 0x01, 0x00, 0x30] + Wire.DerLength(|algId|) + algId + [0x04] + Wire.DerLength(|sec1|) + sec1
  }

  /** The contents of the PrivateKeyInfo around a given AlgorithmIdentifier. */
  method InnerOctets(algId: bytes, sec1: bytes) returns (r: Result<bytes>)
    requires |algId| <= Wire.MAX_LENGTH
    ensures r == if |sec1| > Wire.MAX_LENGTH then Err(Certificate) else Ok(InnerContents(algId, sec1))
  {
    var inner: bytes := [0x02, 0x01, 0x00, 0x30];
    var algLength := DerLength(|algId|);
    inner := inner + algLength.value;
    inner := inner + algId;
    inner := inner + [0x04];
    var keyLength :- DerLength(|sec1|);
    inner := inner + keyLength;
    inner := inner + sec1;
    r := Ok(inner);
  }

  lemma AlgorithmOctets(curve: CurveKind)
    ensures TestPki.SpkiAlgorithm(curve)
            == [0x06, 0x07] + [0x2A, 0x86, 0x48, 0xCE, 0x3D, 0x02, 0x01] + [0x06, |curve.Oid()| as byte] + curve.Oid()
    ensures |TestPki.SpkiAlgorithm(curve)| <= 0x14
  {
  }

  lemma NamedAlgorithmOctets(curve: CurveKind)
    ensures TestPki.SpkiAlgorithm(curve)
            == [0x06, 0x07, 0x2A, 0x86, 0x48, 0xCE, 0x3D, 0x02, 0x01]
               + if curve.P256? then [0x06, 0x08, 0x2A, 0x86, 0x48, 0xCE, 0x3D, 0x03, 0x01, 0x07]
                 else [0x06, 0x09, 0x2B, 0x24, 0x03, 0x03, 0x02, 0x08, 0x01, 0x01, 0x07]
  {
    assert DerTlv(0x06, ID_EC_PUBLIC_KEY) == [0x06, 0x07, 0x2A, 0x86, 0x48, 0xCE, 0x3D, 0x02, 0x01];
    assert DerTlv(0x06, curve.Oid()) == [0x06, |curve.Oid()| as byte] + curve.Oid();
  }

  lemma ContentsOctets(curve: CurveKind, sec1: bytes)
    ensures Contents(curve, sec1) == InnerContents(TestPki.SpkiAlgorithm(curve), sec1)
  {
    var (a, b, c) := (DerTlv(0x02, [0x00]), DerTlv(0x30, TestPki.SpkiAlgorithm(curve)), DerTlv(0x04, sec1));
    assert Encoded(Members(curve, sec1)) == [a, b, c];
    ConcatOfThree(a, b, c);
    assert a == [0x02, 0x01, 0x00];
    var alg := TestPki.SpkiAlgorithm(curve);
    JoinsUp(a, 0x30, Wire.DerLength(|alg|), alg, 0x04, Wire.DerLength(|sec1|), sec1);
    assert a + [0x30] == [0x02, 0x01, 0x00, 0x30];
  }

  /** A key that does not fit leaves no contents that do. */
  lemma ContentsAreInner(curve: CurveKind, sec1: bytes)
    ensures PrivateKeyInfo(curve, sec1)
            == var inner := InnerContents(TestPki.SpkiAlgorithm(curve), sec1);
               if |inner| > Wire.MAX_LENGTH then Err(Certificate) else Ok(DerTlv(0x30, inner))
    ensures |sec1| <= |InnerContents(TestPki.SpkiAlgorithm(curve), sec1)|
  {
    ContentsOctets(curve, sec1);
  }

  lemma JoinsUp(a: bytes, t: byte, l: bytes, v: bytes, t': byte, l': bytes, v': bytes)
    ensures a + ([t] + l + v) + ([t'] + l' + v') == a + [t] + l + v + [t'] + l' + v'
  {
  }

  lemma ConcatOfThree(a: bytes, b: bytes, c: bytes)
    ensures Concat([a, b, c]) == a + b + c
  {
    assert [a, b, c][1..] == [b, c] && [b, c][1..] == [c] && [c][1..] == [];
    assert Concat([c]) == c + Concat([]);
    assert Concat([b, c]) == b + Concat([c]);
  }

  /**
    Where the key fits, the result is one SEQUENCE of version 0, the algorithm id-ecPublicKey with the
    curve's OID, and the SEC1 octets as they were; where it does not, it is an error.
   */
  lemma PrivateKeyInfoReadsBack(curve: CurveKind, sec1: bytes)
    ensures PrivateKeyInfo(curve, sec1).Ok? <==> |Contents(curve, sec1)| <= Wire.MAX_LENGTH
    ensures PrivateKeyInfo(curve, sec1).Ok? ==>
              && ReadTlv(PrivateKeyInfo(curve, sec1).value, 0x30).Ok?
              && ReadTlv(PrivateKeyInfo(curve, sec1).value, 0x30).value.used == |PrivateKeyInfo(curve, sec1).value|
              && var es := Elements(ReadTlv(PrivateKeyInfo(curve, sec1).value, 0x30).value.value);
              && es.Ok? && |es.value| == 3
              && es.value[0] == Element(0x02, [0x00])
              && es.value[1] == Element(0x30,
                   [0x06, 0x07, 0x2A, 0x86, 0x48, 0xCE, 0x3D, 0x02, 0x01]
                   + if curve.P256? then [0x06, 0x08, 0x2A, 0x86, 0x48, 0xCE, 0x3D, 0x03, 0x01, 0x07]
                     else [0x06, 0x09, 0x2B, 0x24, 0x03, 0x03, 0x02, 0x08, 0x01, 0x01, 0x07])
              && CurveFromAlgorithmIdentifier(es.value[1].value) == Ok(curve)
              && es.value[2] == Element(0x04, sec1)
  {
    if PrivateKeyInfo(curve, sec1).Ok? {
      var es := Members(curve, sec1);
      Certificates.ReadsWhole(0x30, Contents(curve, sec1));
      forall i | 0 <= i < |es|
        ensures |es[i].value| <= Wire.MAX_LENGTH
      {
        ConcatCovers(Encoded(es), i);
        Certificates.TlvCovers(es[i].tag, es[i].value);
      }
      ElementsUndoPrinting(es);
      NamedAlgorithmOctets(curve);
      Certificates.AlgorithmReadsBack(curve);
    }
  }
}
