/**
  Issuing the test certificates: nested TLVs, printed from the inside out.
 */
module TestPki {
  import opened Bytes
  import opened Primitives
  import opened X509
  import opened X509Extensions

  const OID_ECDSA_SHA256: bytes := [0x2A, 0x86, 0x48, 0xCE, 0x3D, 0x04, 0x03, 0x02]

  /** What marks a certificate as test material, before its label. */
  const TEST_CN_PREFIX: string := "SGP.33 TEST ONLY "

  /** The octets of an ASCII text. */
  function Ascii(s: string): bytes
    requires forall i :: 0 <= i < |s| ==> s[i] < 128 as char
  {
    seq(|s|, i requires 0 <= i < |s| => s[i] as byte)
  }

  /**
    What a certificate is issued for: a label in UTF-8, the subject's key, the issuer's key pair,
    and the contents of the entity and role OIDs if there are any.
   */
  datatype Request = Request(
    subjectLabel: bytes,
    subject: PublicKey,
    issuer: KeyPair,
    sanOid: Option<bytes>,
    roleOid: Option<bytes>)

  // ---------- the fields ----------

  /** The first octets of the subject key's hash, as a positive minimal INTEGER. */
  function SerialNumber(p: Suite, subject: PublicKey): bytes {
    var h := p.sha256(subject.point)[..8];
    if h[0] >= 0x80 then [0x00] + h else h
  }

  /** No octet could be left off the front of a two's-complement INTEGER (section 8.3.2 of ITU-T X.690). */
  predicate IsMinimalInteger(s: bytes)
    requires |s| >= 2
  {
    !(s[0] == 0x00 && s[1] < 0x80) && !(s[0] == 0xFF && s[1] >= 0x80)
  }

  /**
    The serial number is never negative and keeps the hash octets' value. The builder's comment
    also has it minimally encoded, which holds exactly unless the hash begins with a zero octet
    and a second one under 0x80.
   */
  lemma SerialNumberAsInteger(p: Suite, subject: PublicKey)
    ensures var h, s := p.sha256(subject.point)[..8], SerialNumber(p, subject);
            && |s| >= 2 && s[0] < 0x80
            && BigEndianValue(s) == BigEndianValue(h)
            && (IsMinimalInteger(s) <==> !(h[0] == 0x00 && h[1] < 0x80))
  {
    var h := p.sha256(subject.point)[..8];
    LeadingZeros(1, h);
    assert Zeros(1) + h == [0x00] + h;
  }

  function SignatureAlgorithm(): bytes {
    DerTlv(0x06, OID_ECDSA_SHA256) + DerTlv(0x05, [])
  }

  /** The one attribute of a Name: the common name. */
  function NameAttribute(subjectLabel: bytes): bytes {
    DerTlv(0x06, [0x55, 0x04, 0x03]) + DerTlv(0x0C, Ascii(TEST_CN_PREFIX) + subjectLabel)
  }

  function NameContents(subjectLabel: bytes): bytes {
    DerTlv(0x31, DerTlv(0x30, NameAttribute(subjectLabel)))
  }

  function Validity(): bytes {
    DerTlv(0x17, Ascii("250101000000Z")) + DerTlv(0x17, Ascii("250101000000Z"))
  }

  function SpkiAlgorithm(curve: CurveKind): bytes {
    DerTlv(0x06, ID_EC_PUBLIC_KEY) + DerTlv(0x06, curve.Oid())
  }

  function SpkiContents(key: PublicKey): bytes {
    DerTlv(0x30, SpkiAlgorithm(key.curve)) + DerTlv(0x03, [0x00] + key.point)
  }

  // ---------- the extensions ----------

  /** The OID's contents, `critical`, and the value of one extension. */
  datatype Extension = Extension(oid: bytes, critical: bool, value: bytes)

  function IssuerKeyId(p: Suite, issuer: KeyPair): (r: bytes)
    ensures |r| == 20
  {
    p.sha256(p.publicPoint(issuer))[..20]
  }

  function AkiExtension(p: Suite, issuer: KeyPair): Extension {
    Extension([0x55, 0x1D, 0x23], false, AkiValue(IssuerKeyId(p, issuer)))
  }

  function PoliciesExtension(role: bytes): Extension {
    Extension([0x55, 0x1D, 0x20], true, PoliciesValue(role))
  }

  function SanExtension(oid: bytes): Extension {
    Extension([0x55, 0x1D, 0x11], false, SanValue(oid))
  }

  function Extensions(p: Suite, q: Request): seq<Extension> {
    [AkiExtension(p, q.issuer)]
    + (if q.roleOid.Some? then [PoliciesExtension(q.roleOid.value)] else [])
    + (if q.sanOid.Some? then [SanExtension(q.sanOid.value)] else [])
  }

  /** The contents of the `critical` flag, which is only written when it is set. */
  function CriticalFlag(critical: bool): Option<bytes> {
    if critical then Some([0xFF]) else None
  }

  function ExtensionContents(e: Extension): bytes {
    Written(DerTlv(0x06, e.oid), CriticalFlag(e.critical), e.value)
  }

  function ExtensionTlvs(es: seq<Extension>): (r: seq<bytes>)
    ensures |r| == |es|
  {
    seq(|es|, i requires 0 <= i < |es| => DerTlv(0x30, ExtensionContents(es[i])))
  }

  // ---------- the certificate ----------

  /** The elements of the tbsCertificate, in the order of section 4.1 of RFC 5280. */
  function TbsElements(p: Suite, q: Request): seq<Element> {
    [ Element(0xA0, DerTlv(0x02, [0x02])),
      Element(0x02, SerialNumber(p, q.subject)),
      Element(0x30, SignatureAlgorithm()),
      Element(0x30, NameContents(q.subjectLabel)),
      Element(0x30, Validity()),
      Element(0x30, NameContents(q.subjectLabel)),
      Element(0x30, SpkiContents(q.subject)),
      Element(0xA3, DerTlv(0x30, Concat(ExtensionTlvs(Extensions(p, q))))) ]
  }

  function TbsContents(p: Suite, q: Request): bytes {
    Concat(Encoded(TbsElements(p, q)))
  }

  /** The contents of the certificate: what is signed, the algorithm, and the issuer's signature. */
  function CertificateContents(p: Suite, q: Request): bytes {
    var tbs := TbsContents(p, q);
    CertificateBody(tbs, SignatureAlgorithm(), p.signDer(q.issuer, DerTlv(0x30, tbs)))
  }

  function CertificateDer(p: Suite, q: Request): bytes {
    DerTlv(0x30, CertificateContents(p, q))
  }

  /** The list of extensions, pushed one by one; two of them are optional. */
  method BuildExtensions(p: Suite, q: Request) returns (list: seq<bytes>)
    ensures list == ExtensionTlvs(Extensions(p, q))
  {
    list := [];
    var aki := p.sha256(p.publicPoint(q.issuer))[..20];
    WrittenWithoutFlag(DerTlv(0x06, [0x55, 0x1D, 0x23]), AkiValue(aki));
    list := list + [DerTlv(0x30, DerTlv(0x06, [0x55, 0x1D, 0x23]) + DerTlv(0x04, DerTlv(0x30, DerTlv(0x80, aki))))];
    if q.roleOid.Some? {
      var policyOid := DerTlv(0x06, q.roleOid.value);
      list := list
        + [DerTlv(0x30, DerTlv(0x06, [0x55, 0x1D, 0x20]) + DerTlv(0x01, [0xFF])
                        + DerTlv(0x04, DerTlv(0x30, DerTlv(0x30, policyOid))))];
    }
    if q.sanOid.Some? {
      WrittenWithoutFlag(DerTlv(0x06, [0x55, 0x1D, 0x11]), SanValue(q.sanOid.value));
      list := list
        + [DerTlv(0x30, DerTlv(0x06, [0x55, 0x1D, 0x11]) + DerTlv(0x04, DerTlv(0x30, DerTlv(0x88, q.sanOid.value))))];
    }
  }

  lemma WrittenWithoutFlag(oid: bytes, value: bytes)
    ensures Written(oid, None, value) == oid + DerTlv(0x04, value)
  {
    assert oid + [] == oid;
  }

  /** The certificate as the source builds it, piece by piece. */
  method BuildCertificate(p: Suite, q: Request) returns (der: bytes)
    ensures der == CertificateDer(p, q)
  {
    var cn := Ascii(TEST_CN_PREFIX) + q.subjectLabel;
    var serialBytes := p.sha256(q.subject.point)[..8];
    if serialBytes[0] >= 0x80 {
      serialBytes := [0x00] + serialBytes;
    }
    var serial := DerTlv(0x02, serialBytes);
    var version := DerTlv(0xA0, DerTlv(0x02, [0x02]));
    var sigAlg := DerTlv(0x30, DerTlv(0x06, OID_ECDSA_SHA256) + DerTlv(0x05, []));
    var name := DerTlv(0x30, DerTlv(0x31, DerTlv(0x30, DerTlv(0x06, [0x55, 0x04, 0x03]) + DerTlv(0x0C, cn))));
    var validity := DerTlv(0x30, DerTlv(0x17, Ascii("250101000000Z")) + DerTlv(0x17, Ascii("250101000000Z")));
    var spkiAlg := DerTlv(0x30, DerTlv(0x06, ID_EC_PUBLIC_KEY) + DerTlv(0x06, q.subject.curve.Oid()));
    var spki := DerTlv(0x30, spkiAlg + DerTlv(0x03, [0x00] + q.subject.point));

    var extensions := BuildExtensions(p, q);
    var extensionsTlv := DerTlv(0xA3, DerTlv(0x30, Concat(extensions)));

    var parts := [version, serial, sigAlg, name, validity, name, spki, extensionsTlv];
    assert parts == Encoded(TbsElements(p, q));
    var tbs := DerTlv(0x30, Concat(parts));
    var signature := p.signDer(q.issuer, tbs);
    der := DerTlv(0x30, tbs + sigAlg + DerTlv(0x03, [0x00] + signature));
  }
}
