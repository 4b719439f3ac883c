/**
  What `testpki.rs` issues, said without the printer: the fields a reader finds in the certificate,
  in the order of section 4.1 of RFC 5280, with their octets.
 */
module IssuedFields {
  import opened Bytes
  import opened Primitives
  import opened X509
  import opened TestPki
  import opened Certificates
  import Wire

  // ---------- the fields ----------

  /** `s` is these elements, one after the other. */
  ghost predicate Holds(s: bytes, es: seq<Element>) {
    Elements(s) == Ok(es)
  }

  /** The OID ecdsa-with-SHA256 and a NULL. */
  ghost predicate IsSignatureAlgorithm(s: bytes) {
    Holds(s, [Element(0x06, [0x2A, 0x86, 0x48, 0xCE, 0x3D, 0x04, 0x03, 0x02]), Element(0x05, [])])
  }

  /** A Name of one common name, `SGP.33 TEST ONLY ` and the label. */
  ghost predicate IsName(s: bytes, subjectLabel: bytes) {
    exists rdn, attribute ::
      && Holds(s, [Element(0x31, rdn)])
      && Holds(rdn, [Element(0x30, attribute)])
      && Holds(attribute, [
           Element(0x06, [0x55, 0x04, 0x03]),
           Element(0x0C, [0x53, 0x47, 0x50, 0x2E, 0x33, 0x33, 0x20, 0x54, 0x45, 0x53, 0x54, 0x20, 0x4F, 0x4E, 0x4C, 0x59, 0x20]
                         + subjectLabel)])
  }

  /** Twice the UTCTime 250101000000Z. */
  ghost predicate IsValidity(s: bytes) {
    var time := [0x32, 0x35, 0x30, 0x31, 0x30, 0x31, 0x30, 0x30, 0x30, 0x30, 0x30, 0x30, 0x5A];
    Holds(s, [Element(0x17, time), Element(0x17, time)])
  }

  /** id-ecPublicKey and the key's curve, and the key's point in a BIT STRING of whole octets. */
  ghost predicate IsPublicKeyInfo(s: bytes, key: PublicKey) {
    exists alg ::
      && Holds(s, [Element(0x30, alg), Element(0x03, [0x00] + key.point)])
      && Holds(alg, [
           Element(0x06, [0x2A, 0x86, 0x48, 0xCE, 0x3D, 0x02, 0x01]),
           Element(0x06, if key.curve.P256? then [0x2A, 0x86, 0x48, 0xCE, 0x3D, 0x03, 0x01, 0x07]
                         else [0x2B, 0x24, 0x03, 0x03, 0x02, 0x08, 0x01, 0x01, 0x07])])
  }

  // ---------- the extensions ----------

  /** An extension: its OID, a TRUE where it is critical, and its value in an OCTET STRING. */
  ghost predicate IsExtension(e: Element, oid: bytes, critical: bool, value: bytes) {
    && e.tag == 0x30
    && Holds(e.value, [Element(0x06, oid)] + (if critical then [Element(0x01, [0xFF])] else []) + [Element(0x04, value)])
  }

  ghost predicate IsKeyIdentifier(e: Element, keyId: bytes) {
    exists value, members ::
      && IsExtension(e, [0x55, 0x1D, 0x23], false, value)
      && Holds(value, [Element(0x30, members)])
      && Holds(members, [Element(0x80, keyId)])
  }

  ghost predicate IsPolicy(e: Element, role: bytes) {
    exists value, list, info ::
      && IsExtension(e, [0x55, 0x1D, 0x20], true, value)
      && Holds(value, [Element(0x30, list)])
      && Holds(list, [Element(0x30, info)])
      && Holds(info, [Element(0x06, role)])
  }

  ghost predicate IsAlternativeName(e: Element, oid: bytes) {
    exists value, names ::
      && IsExtension(e, [0x55, 0x1D, 0x11], false, value)
      && Holds(value, [Element(0x30, names)])
      && Holds(names, [Element(0x88, oid)])
  }

  /** The key identifier, then the role and the entity where there are any; no others. */
  ghost predicate AreExtensions(p: Suite, q: Request, s: bytes) {
    exists list, es ::
      && Holds(s, [Element(0x30, list)]) && Holds(list, es)
      && |es| == 1 + (if q.roleOid.Some? then 1 else 0) + (if q.sanOid.Some? then 1 else 0)
      && IsKeyIdentifier(es[0], p.sha256(p.publicPoint(q.issuer))[..20])
      && (q.roleOid.Some? ==> IsPolicy(es[1], q.roleOid.value))
      && (q.sanOid.Some? ==> IsAlternativeName(es[|es| - 1], q.sanOid.value))
  }

  // ---------- the certificate ----------

  /**
    Version 3, the serial number, the algorithm, the issuer, the validity, the subject, the key and
    the extensions.
   */
  ghost predicate AreFields(p: Suite, q: Request, es: seq<Element>) {
    && |es| == 8
    && es[0] == Element(0xA0, [0x02, 0x01, 0x02])
    && es[1] == Element(0x02, var h := p.sha256(q.subject.point)[..8]; if h[0] >= 0x80 then [0x00] + h else h)
    && AreNamesAndTimes(q, es[2], es[3], es[4], es[5])
    && es[6].tag == 0x30 && IsPublicKeyInfo(es[6].value, q.subject)
    && es[7].tag == 0xA3 && AreExtensions(p, q, es[7].value)
  }

  /** The algorithm, the issuer, the validity, and the subject, who is the issuer. */
  ghost predicate AreNamesAndTimes(q: Request, algorithm: Element, issuer: Element, validity: Element, subject: Element) {
    && algorithm.tag == 0x30 && IsSignatureAlgorithm(algorithm.value)
    && issuer.tag == 0x30 && IsName(issuer.value, q.subjectLabel)
    && validity.tag == 0x30 && IsValidity(validity.value)
    && subject == issuer
  }

  /**
    An issued certificate is a SEQUENCE of the tbsCertificate, the algorithm and the signature over
    the tbsCertificate's TLV, and the tbsCertificate is those eight fields.
   */
  lemma IssuedFieldsReadBack(p: Suite, q: Request)
    requires Fits(p, q)
    ensures var der := CertificateDer(p, q);
            && TbsOf(der).Ok?
            && var tbs := TbsOf(der).value;
               && Elements(tbs).Ok? && AreFields(p, q, Elements(tbs).value)
               && exists body, alg ::
                    && Holds(der, [Element(0x30, body)])
                    && Holds(body, [
                         Element(0x30, tbs), Element(0x30, alg),
                         Element(0x03, [0x00] + p.signDer(q.issuer, DerTlv(0x30, tbs)))])
                    && IsSignatureAlgorithm(alg)
  {
    var tbs := TbsContents(p, q);
    TbsReadsBack(p, q, []);
    assert CertificateDer(p, q) + [] == CertificateDer(p, q);
    TbsFits(p, q);
    SizesFit(p, q);
    IssuedStructure(p, q);
    OneHolds(0x30, CertificateContents(p, q));
    assert Holds(CertificateDer(p, q), [Element(0x30, CertificateContents(p, q))]);
    FieldsAreWritten(p, q, TbsElements(p, q));
  }

  lemma FieldsAreWritten(p: Suite, q: Request, es: seq<Element>)
    requires es == TbsElements(p, q) && forall i :: 0 <= i < |es| ==> |es[i].value| <= Wire.MAX_LENGTH
    ensures AreFields(p, q, es)
  {
    WrittenFields(p, q, es);
    assert |es[3].value| <= Wire.MAX_LENGTH && |es[6].value| <= Wire.MAX_LENGTH && |es[7].value| <= Wire.MAX_LENGTH;
    WrittenFieldsHold(p, q, es);
  }

  lemma WrittenFieldsHold(p: Suite, q: Request, es: seq<Element>)
    requires AreWritten(p, q, es)
    requires |es[3].value| <= Wire.MAX_LENGTH && |es[6].value| <= Wire.MAX_LENGTH && |es[7].value| <= Wire.MAX_LENGTH
    ensures AreFields(p, q, es)
  {
    assert es[0].value == [0x02, 0x01, 0x02];
    NamesAndTimesHold(q);
    KeyInfoHolds(q.subject);
    ExtensionsHold(p, q);
    FieldsTogether(p, q, es);
  }

  lemma FieldsTogether(p: Suite, q: Request, es: seq<Element>)
    requires |es| == 8
    requires es[0] == Element(0xA0, [0x02, 0x01, 0x02])
    requires es[1] == Element(0x02, SerialNumber(p, q.subject))
    requires AreNamesAndTimes(q, es[2], es[3], es[4], es[5])
    requires es[6].tag == 0x30 && IsPublicKeyInfo(es[6].value, q.subject)
    requires es[7].tag == 0xA3 && AreExtensions(p, q, es[7].value)
    ensures AreFields(p, q, es)
  {
  }

  /** The printer's fields, one by one. */
  ghost predicate AreWritten(p: Suite, q: Request, es: seq<Element>) {
    && |es| == 8
    && es[0] == Element(0xA0, DerTlv(0x02, [0x02])) && es[1] == Element(0x02, SerialNumber(p, q.subject))
    && es[2] == Element(0x30, SignatureAlgorithm()) && es[3] == Element(0x30, NameContents(q.subjectLabel))
    && es[4] == Element(0x30, Validity()) && es[5] == es[3]
    && es[6] == Element(0x30, SpkiContents(q.subject))
    && es[7] == Element(0xA3, DerTlv(0x30, Concat(ExtensionTlvs(Extensions(p, q)))))
  }

  lemma WrittenFields(p: Suite, q: Request, es: seq<Element>)
    requires es == TbsElements(p, q)
    ensures AreWritten(p, q, es)
  {
  }

  lemma NamesAndTimesHold(q: Request)
    requires |NameContents(q.subjectLabel)| <= Wire.MAX_LENGTH
    ensures var name := Element(0x30, NameContents(q.subjectLabel));
            AreNamesAndTimes(q, Element(0x30, SignatureAlgorithm()), name, Element(0x30, Validity()), name)
  {
    SignatureAlgorithmHolds();
    NameHolds(q.subjectLabel);
    ValidityHolds();
  }

  // ---------- field by field ----------

  lemma OneHolds(tag: byte, value: bytes)
    requires |value| <= Wire.MAX_LENGTH
    ensures Holds(DerTlv(tag, value), [Element(tag, value)])
  {
    var es := [Element(tag, value)];
    ElementsUndoPrinting(es);
    assert Encoded(es) == [DerTlv(tag, value)] + [];
    ConcatWithFirst(DerTlv(tag, value), []);
    assert DerTlv(tag, value) + Concat([]) == DerTlv(tag, value);
  }

  lemma TwoHold(a: Element, b: Element)
    requires |a.value| <= Wire.MAX_LENGTH && |b.value| <= Wire.MAX_LENGTH
    ensures Holds(DerTlv(a.tag, a.value) + DerTlv(b.tag, b.value), [a, b])
  {
    ElementsUndoPrinting([a, b]);
    PairPrinted([a, b]);
  }

  lemma ThreeHold(a: Element, b: Element, c: Element)
    requires |a.value| <= Wire.MAX_LENGTH && |b.value| <= Wire.MAX_LENGTH && |c.value| <= Wire.MAX_LENGTH
    ensures Holds(DerTlv(a.tag, a.value) + DerTlv(b.tag, b.value) + DerTlv(c.tag, c.value), [a, b, c])
  {
    ElementsUndoPrinting([a, b, c]);
    TriplePrinted([a, b, c]);
  }

  lemma SignatureAlgorithmHolds()
    ensures IsSignatureAlgorithm(SignatureAlgorithm())
  {
    TwoHold(Element(0x06, OID_ECDSA_SHA256), Element(0x05, []));
  }

  lemma NameHolds(subjectLabel: bytes)
    requires |NameContents(subjectLabel)| <= Wire.MAX_LENGTH
    ensures IsName(NameContents(subjectLabel), subjectLabel)
  {
    var attribute := NameAttribute(subjectLabel);
    var cn := Ascii(TEST_CN_PREFIX) + subjectLabel;
    TlvCovers(0x31, DerTlv(0x30, attribute));
    TlvCovers(0x30, attribute);
    TlvCovers(0x0C, cn);
    OneHolds(0x31, DerTlv(0x30, attribute));
    OneHolds(0x30, attribute);
    TwoHold(Element(0x06, [0x55, 0x04, 0x03]), Element(0x0C, cn));
    PrefixOctets();
  }

  lemma PrefixOctets()
    ensures Ascii(TEST_CN_PREFIX)
            == [0x53, 0x47, 0x50, 0x2E, 0x33, 0x33, 0x20, 0x54, 0x45, 0x53, 0x54, 0x20, 0x4F, 0x4E, 0x4C, 0x59, 0x20]
  {
  }

  lemma ValidityHolds()
    ensures IsValidity(Validity())
  {
    var time := Ascii("250101000000Z");
    TwoHold(Element(0x17, time), Element(0x17, time));
    TimeOctets();
  }

  lemma TimeOctets()
    ensures Ascii("250101000000Z") == [0x32, 0x35, 0x30, 0x31, 0x30, 0x31, 0x30, 0x30, 0x30, 0x30, 0x30, 0x30, 0x5A]
  {
  }

  lemma KeyInfoHolds(key: PublicKey)
    requires |SpkiContents(key)| <= Wire.MAX_LENGTH
    ensures IsPublicKeyInfo(SpkiContents(key), key)
  {
    var alg := SpkiAlgorithm(key.curve);
    TlvCovers(0x30, alg);
    TlvCovers(0x03, [0x00] + key.point);
    TwoHold(Element(0x30, alg), Element(0x03, [0x00] + key.point));
    TwoHold(Element(0x06, ID_EC_PUBLIC_KEY), Element(0x06, key.curve.Oid()));
    assert Holds(alg, [Element(0x06, ID_EC_PUBLIC_KEY), Element(0x06, key.curve.Oid())]);
  }

  lemma ExtensionHolds(e: Extension)
    requires |ExtensionContents(e)| <= Wire.MAX_LENGTH && |e.oid| == 3
    ensures |e.value| <= Wire.MAX_LENGTH
    ensures IsExtension(Element(0x30, ExtensionContents(e)), e.oid, e.critical, e.value)
  {
    TlvCovers(0x04, e.value);
    var oid, value := Element(0x06, e.oid), Element(0x04, e.value);
    if e.critical {
      ThreeHold(oid, Element(0x01, [0xFF]), value);
      assert [oid] + [Element(0x01, [0xFF])] + [value] == [oid, Element(0x01, [0xFF]), value];
    } else {
      TwoHold(oid, value);
      WrittenWithoutFlag(DerTlv(0x06, e.oid), e.value);
      assert [oid] + [] + [value] == [oid, value];
    }
  }

  lemma KeyIdentifierHolds(p: Suite, issuer: KeyPair)
    ensures IsKeyIdentifier(Element(0x30, ExtensionContents(AkiExtension(p, issuer))), p.sha256(p.publicPoint(issuer))[..20])
  {
    var e := AkiExtension(p, issuer);
    var keyId := IssuerKeyId(p, issuer);
    ExtensionHolds(e);
    OneHolds(0x30, DerTlv(0x80, keyId));
    OneHolds(0x80, keyId);
  }

  lemma PolicyHolds(role: bytes)
    requires |ExtensionContents(PoliciesExtension(role))| <= Wire.MAX_LENGTH
    ensures IsPolicy(Element(0x30, ExtensionContents(PoliciesExtension(role))), role)
  {
    ExtensionHolds(PoliciesExtension(role));
    TlvCovers(0x30, DerTlv(0x30, DerTlv(0x06, role)));
    TlvCovers(0x30, DerTlv(0x06, role));
    TlvCovers(0x06, role);
    OneHolds(0x30, DerTlv(0x30, DerTlv(0x06, role)));
    OneHolds(0x30, DerTlv(0x06, role));
    OneHolds(0x06, role);
  }

  lemma AlternativeNameHolds(oid: bytes)
    requires |ExtensionContents(SanExtension(oid))| <= Wire.MAX_LENGTH
    ensures IsAlternativeName(Element(0x30, ExtensionContents(SanExtension(oid))), oid)
  {
    ExtensionHolds(SanExtension(oid));
    TlvCovers(0x30, DerTlv(0x88, oid));
    TlvCovers(0x88, oid);
    OneHolds(0x30, DerTlv(0x88, oid));
    OneHolds(0x88, oid);
  }

  /** The extensions as elements of their list. */
  function ExtensionElements(es: seq<Extension>): (r: seq<Element>)
    ensures |r| == |es|
  {
    seq(|es|, i requires 0 <= i < |es| => Element(0x30, ExtensionContents(es[i])))
  }

  lemma ExtensionsHold(p: Suite, q: Request)
    requires |DerTlv(0x30, Concat(ExtensionTlvs(Extensions(p, q))))| <= Wire.MAX_LENGTH
    ensures AreExtensions(p, q, DerTlv(0x30, Concat(ExtensionTlvs(Extensions(p, q)))))
  {
    var list := Concat(ExtensionTlvs(Extensions(p, q)));
    TlvCovers(0x30, list);
    OneHolds(0x30, list);
    ListHolds(Extensions(p, q));
    ListedExtensions(p, q);
    KeyIdentifierHolds(p, q.issuer);
    if q.roleOid.Some? {
      PolicyHolds(q.roleOid.value);
    }
    if q.sanOid.Some? {
      AlternativeNameHolds(q.sanOid.value);
    }
    ExtensionsTogether(p, q, DerTlv(0x30, list), list, ExtensionElements(Extensions(p, q)));
  }

  lemma ExtensionsTogether(p: Suite, q: Request, s: bytes, list: bytes, es: seq<Element>)
    requires Holds(s, [Element(0x30, list)]) && Holds(list, es)
    requires |es| == 1 + (if q.roleOid.Some? then 1 else 0) + (if q.sanOid.Some? then 1 else 0)
    requires IsKeyIdentifier(es[0], p.sha256(p.publicPoint(q.issuer))[..20])
    requires q.roleOid.Some? ==> IsPolicy(es[1], q.roleOid.value)
    requires q.sanOid.Some? ==> IsAlternativeName(es[|es| - 1], q.sanOid.value)
    ensures AreExtensions(p, q, s)
  {
  }

  /** Which extensions are written, and where. */
  lemma ListedExtensions(p: Suite, q: Request)
    ensures var es := ExtensionElements(Extensions(p, q));
            && |es| == 1 + (if q.roleOid.Some? then 1 else 0) + (if q.sanOid.Some? then 1 else 0)
            && es[0] == Element(0x30, ExtensionContents(AkiExtension(p, q.issuer)))
            && (q.roleOid.Some? ==> es[1] == Element(0x30, ExtensionContents(PoliciesExtension(q.roleOid.value))))
            && (q.sanOid.Some? ==> es[|es| - 1] == Element(0x30, ExtensionContents(SanExtension(q.sanOid.value))))
  {
  }

  lemma ListHolds(es: seq<Extension>)
    requires |Concat(ExtensionTlvs(es))| <= Wire.MAX_LENGTH
    ensures Holds(Concat(ExtensionTlvs(es)), ExtensionElements(es))
    ensures forall i :: 0 <= i < |es| ==> |ExtensionElements(es)[i].value| <= Wire.MAX_LENGTH
  {
    var fs := ExtensionElements(es);
    assert Encoded(fs) == ExtensionTlvs(es);
    forall i | 0 <= i < |fs|
      ensures |fs[i].value| <= Wire.MAX_LENGTH
    {
      ConcatCovers(Encoded(fs), i);
      TlvCovers(fs[i].tag, fs[i].value);
    }
    ElementsUndoPrinting(fs);
  }
}
