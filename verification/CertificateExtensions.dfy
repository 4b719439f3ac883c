/**
  The extension readers undo the builder: what `testpki.rs` writes into a certificate's extensions,
  the OID search of `x509.rs` finds again exactly when no earlier position stops the search.
 */
module CertificateExtensions {
  import opened Bytes
  import opened Primitives
  import opened X509
  import opened X509Extensions
  import opened TestPki
  import Wire

  // ---------- where the builder puts things ----------

  /** The octets before the value of a TLV. */
  function HeaderLength(value: bytes): nat {
    1 + |Wire.DerLength(|value|)|
  }

  /** The position of the contents of the tbsCertificate. */
  function TbsOffset(p: Suite, q: Request): nat {
    HeaderLength(CertificateContents(p, q)) + HeaderLength(TbsContents(p, q))
  }

  /** The position of the contents of field `i` of the tbsCertificate. */
  function FieldOffset(p: Suite, q: Request, i: nat): nat
    requires i < |TbsElements(p, q)|
  {
    TbsOffset(p, q) + |Concat(Encoded(TbsElements(p, q))[..i])| + HeaderLength(TbsElements(p, q)[i].value)
  }

  /** The position of the OID of extension `k`. */
  function OidOffset(p: Suite, q: Request, k: nat): nat
    requires k < |Extensions(p, q)|
  {
    var tlvs := ExtensionTlvs(Extensions(p, q));
    FieldOffset(p, q, 7) + HeaderLength(Concat(tlvs)) + |Concat(tlvs[..k])|
    + HeaderLength(ExtensionContents(Extensions(p, q)[k]))
  }

  lemma ValueOccursInTlv(tag: byte, value: bytes)
    ensures OccursAt(DerTlv(tag, value), value, HeaderLength(value))
  {
  }

  /** Where a TLV occurs, its value occurs after the header. */
  lemma ValueOccurs(s: bytes, i: nat, tag: byte, value: bytes)
    requires OccursAt(s, DerTlv(tag, value), i)
    ensures OccursAt(s, value, i + HeaderLength(value))
  {
    ValueOccursInTlv(tag, value);
    OccursWithin(s, i, DerTlv(tag, value), HeaderLength(value), value);
  }

  /** Where a list of parts occurs, each part occurs after those before it. */
  lemma PartOccurs(s: bytes, i: nat, parts: seq<bytes>, k: nat)
    requires k < |parts| && OccursAt(s, Concat(parts), i)
    ensures OccursAt(s, parts[k], i + |Concat(parts[..k])|)
  {
    ConcatCovers(parts, k);
    var n := |Concat(parts[..k])|;
    assert Concat(parts)[n..][..|parts[k]|] == Concat(parts)[n..n + |parts[k]|];
    OccursWithin(s, i, Concat(parts), n, parts[k]);
  }

  lemma ValueOfPartOccurs(s: bytes, i: nat, parts: seq<bytes>, k: nat, tag: byte, value: bytes)
    requires k < |parts| && parts[k] == DerTlv(tag, value) && OccursAt(s, Concat(parts), i)
    ensures OccursAt(s, value, i + |Concat(parts[..k])| + HeaderLength(value))
  {
    PartOccurs(s, i, parts, k);
    ValueOccurs(s, i + |Concat(parts[..k])|, tag, value);
  }

  lemma TbsOccurs(p: Suite, q: Request)
    ensures OccursAt(CertificateDer(p, q), TbsContents(p, q), TbsOffset(p, q))
  {
    var tbs := TbsContents(p, q);
    PrintedTbsOccurs(tbs, SignatureAlgorithm(), p.signDer(q.issuer, DerTlv(0x30, tbs)));
  }

  lemma PrintedTbsOccurs(tbs: bytes, alg: bytes, signature: bytes)
    ensures var body := CertificateBody(tbs, alg, signature);
            OccursAt(DerTlv(0x30, body), tbs, HeaderLength(body) + HeaderLength(tbs))
  {
    var body := CertificateBody(tbs, alg, signature);
    ValueOccursInTlv(0x30, body);
    assert OccursAt(body, DerTlv(0x30, tbs), 0);
    OccursWithin(DerTlv(0x30, body), HeaderLength(body), body, 0, DerTlv(0x30, tbs));
    ValueOccurs(DerTlv(0x30, body), HeaderLength(body), 0x30, tbs);
  }

  lemma FieldOccurs(p: Suite, q: Request, i: nat)
    requires i < |TbsElements(p, q)|
    ensures OccursAt(CertificateDer(p, q), TbsElements(p, q)[i].value, FieldOffset(p, q, i))
  {
    TbsOccurs(p, q);
    FieldOfTbsOccurs(p, q, CertificateDer(p, q), TbsOffset(p, q), i);
  }

  lemma FieldOfTbsOccurs(p: Suite, q: Request, s: bytes, at: nat, i: nat)
    requires i < |TbsElements(p, q)| && OccursAt(s, TbsContents(p, q), at)
    ensures OccursAt(s, TbsElements(p, q)[i].value,
                     at + |Concat(Encoded(TbsElements(p, q))[..i])| + HeaderLength(TbsElements(p, q)[i].value))
  {
    ListedFieldOccurs(s, at, TbsElements(p, q), i);
  }

  lemma ListedFieldOccurs(s: bytes, at: nat, es: seq<Element>, i: nat)
    requires i < |es| && OccursAt(s, Concat(Encoded(es)), at)
    ensures OccursAt(s, es[i].value, at + |Concat(Encoded(es)[..i])| + HeaderLength(es[i].value))
  {
    ValueOfPartOccurs(s, at, Encoded(es), i, es[i].tag, es[i].value);
  }

  lemma ExtensionOccurs(p: Suite, q: Request, k: nat)
    requires k < |Extensions(p, q)|
    ensures OccursAt(CertificateDer(p, q), ExtensionContents(Extensions(p, q)[k]), OidOffset(p, q, k))
  {
    FieldOccurs(p, q, 7);
    NamedFieldsAre(p, q);
    ListedExtensionOccurs(CertificateDer(p, q), FieldOffset(p, q, 7), Extensions(p, q), k);
  }

  lemma NamedFieldsAre(p: Suite, q: Request)
    ensures TbsElements(p, q)[3].value == NameContents(q.subjectLabel)
    ensures TbsElements(p, q)[7].value == DerTlv(0x30, Concat(ExtensionTlvs(Extensions(p, q))))
  {
  }

  lemma ListedExtensionOccurs(s: bytes, at: nat, es: seq<Extension>, k: nat)
    requires k < |es| && OccursAt(s, DerTlv(0x30, Concat(ExtensionTlvs(es))), at)
    ensures var list := Concat(ExtensionTlvs(es));
            OccursAt(s, ExtensionContents(es[k]),
                     at + HeaderLength(list) + |Concat(ExtensionTlvs(es)[..k])| + HeaderLength(ExtensionContents(es[k])))
  {
    var list := Concat(ExtensionTlvs(es));
    ValueOccurs(s, at, 0x30, list);
    ValueOfPartOccurs(s, at + HeaderLength(list), ExtensionTlvs(es), k, 0x30, ExtensionContents(es[k]));
  }

  // ---------- reading an issued extension ----------

  /** The octets searched for to find an extension. */
  function SearchPattern(e: Extension): bytes {
    DerTlv(0x06, e.oid)
  }

  lemma PatternsAreTheReaders(p: Suite, q: Request, role: bytes, san: bytes)
    ensures SearchPattern(AkiExtension(p, q.issuer)) == OID_AUTHORITY_KEY_IDENTIFIER
    ensures SearchPattern(PoliciesExtension(role)) == OID_CERTIFICATE_POLICIES
    ensures SearchPattern(SanExtension(san)) == OID_SUBJECT_ALT_NAME
  {
  }

  /** No position before extension `k` stops the search for it; its pattern may occur there. */
  ghost predicate NothingEarlierDecides(p: Suite, q: Request, k: nat)
    requires k < |Extensions(p, q)|
  {
    forall i: nat :: i < OidOffset(p, q, k) ==> !DecidesAt(CertificateDer(p, q), SearchPattern(Extensions(p, q)[k]), i)
  }

  /**
    The search stops at extension `k` itself exactly when nothing earlier decides, and then returns
    its value exactly when that has a short-form length. Otherwise it answers with the first
    position before the extension that decides, whatever lies there.
   */
  lemma IssuedExtensionIsFound(p: Suite, q: Request, k: nat)
    requires k < |Extensions(p, q)|
    ensures var e := Extensions(p, q)[k];
            var der, pattern := CertificateDer(p, q), SearchPattern(e);
            && (NothingEarlierDecides(p, q, k) <==> IsFirstDecision(der, pattern, OidOffset(p, q, k)))
            && (NothingEarlierDecides(p, q, k) ==>
                  SearchFrom(der, pattern, 0) == (if |e.value| <= 0x7F then Some(e.value) else None))
            && (!NothingEarlierDecides(p, q, k) ==>
                  exists i: nat :: && i < OidOffset(p, q, k) && IsFirstDecision(der, pattern, i)
                                   && SearchFrom(der, pattern, 0) == Answer(DecisionAt(der, pattern, i)))
  {
    var e := Extensions(p, q)[k];
    var der, pattern := CertificateDer(p, q), SearchPattern(e);
    ExtensionOccurs(p, q, k);
    if NothingEarlierDecides(p, q, k) {
      SearchReadsFirstExtension(der, pattern, OidOffset(p, q, k), CriticalFlag(e.critical), e.value);
    } else {
      var early: nat :| early < OidOffset(p, q, k) && DecidesAt(der, pattern, early);
      var i := FirstDecisionExists(der, pattern, early);
      SearchFindsFirstDecision(der, pattern, 0, i);
    }
  }

  /** The index of the subjectAltName among the extensions, if there is one: it is written last. */
  function SanIndex(p: Suite, q: Request): (k: nat)
    requires q.sanOid.Some?
    ensures k < |Extensions(p, q)| && Extensions(p, q)[k] == SanExtension(q.sanOid.value)
  {
    if q.roleOid.Some? then 2 else 1
  }

  /** The entity is read back exactly when its OID has at most 123 octets. */
  lemma IssuedEntityReadsBack(p: Suite, q: Request)
    requires q.sanOid.Some? && NothingEarlierDecides(p, q, SanIndex(p, q))
    ensures SubjectAltName(CertificateDer(p, q)) == Some(q.sanOid.value) <==> |q.sanOid.value| <= 0x7B
    ensures |q.sanOid.value| > 0x7B ==> SubjectAltName(CertificateDer(p, q)).None?
  {
    IssuedExtensionIsFound(p, q, SanIndex(p, q));
    PatternsAreTheReaders(p, q, [], q.sanOid.value);
    ValuesReadBack(q.sanOid.value);
  }

  /** The issuer's key identifier always fits. */
  lemma IssuerKeyIdReadsBack(p: Suite, q: Request)
    requires NothingEarlierDecides(p, q, 0)
    ensures KeyIdentifier(CertificateDer(p, q)) == Some(IssuerKeyId(p, q.issuer))
  {
    IssuedExtensionIsFound(p, q, 0);
    PatternsAreTheReaders(p, q, [], []);
    ValuesReadBack(IssuerKeyId(p, q.issuer));
  }

  /** The role is read back, past the critical flag, exactly when its OID has at most 121 octets. */
  lemma IssuedRoleReadsBack(p: Suite, q: Request)
    requires q.roleOid.Some? && NothingEarlierDecides(p, q, 1)
    ensures Policies(CertificateDer(p, q)) == Some([q.roleOid.value]) <==> |q.roleOid.value| <= 0x79
    ensures |q.roleOid.value| > 0x79 ==> Policies(CertificateDer(p, q)).None?
  {
    IssuedExtensionIsFound(p, q, 1);
    PatternsAreTheReaders(p, q, q.roleOid.value, []);
    ValuesReadBack(q.roleOid.value);
  }

  /** An extension that occurs nowhere is reported as absent, not as agreement. */
  lemma AbsentExtensionsAreAbsent(der: bytes)
    ensures (forall i :: 0 <= i < |der| ==> !OccursAt(der, OID_SUBJECT_ALT_NAME, i)) ==> SubjectAltName(der).None?
    ensures (forall i :: 0 <= i < |der| ==> !OccursAt(der, OID_CERTIFICATE_POLICIES, i)) ==> Policies(der).None?
    ensures (forall i :: 0 <= i < |der| ==> !OccursAt(der, OID_AUTHORITY_KEY_IDENTIFIER, i)) ==> KeyIdentifier(der).None?
  {
    if forall i :: 0 <= i < |der| ==> !OccursAt(der, OID_SUBJECT_ALT_NAME, i) {
      SearchFindsNothing(der, OID_SUBJECT_ALT_NAME, 0);
    }
    if forall i :: 0 <= i < |der| ==> !OccursAt(der, OID_CERTIFICATE_POLICIES, i) {
      SearchFindsNothing(der, OID_CERTIFICATE_POLICIES, 0);
    }
    if forall i :: 0 <= i < |der| ==> !OccursAt(der, OID_AUTHORITY_KEY_IDENTIFIER, i) {
      SearchFindsNothing(der, OID_AUTHORITY_KEY_IDENTIFIER, 0);
    }
  }

  // ---------- why the hypothesis is there ----------

  /** A subjectAltName of one empty GeneralName, with a tag that is an ASCII character. */
  function EmptySanValue(): bytes {
    DerTlv(0x30, DerTlv(0x16, []))
  }

  /** A label that spells a subjectAltName extension: eleven ASCII characters. */
  function LookalikeLabel(): (r: bytes)
    ensures |r| == 11 && forall i :: 0 <= i < |r| ==> r[i] < 0x80
  {
    Written(OID_SUBJECT_ALT_NAME, None, EmptySanValue())
  }

  /** The position of the label in a Name's attribute, and in the Name. */
  function LabelOffsetInAttribute(subjectLabel: bytes): nat {
    var cn := Ascii(TEST_CN_PREFIX) + subjectLabel;
    |DerTlv(0x06, [0x55, 0x04, 0x03])| + HeaderLength(cn) + |Ascii(TEST_CN_PREFIX)|
  }

  function LabelOffsetInName(subjectLabel: bytes): nat {
    var attribute := NameAttribute(subjectLabel);
    HeaderLength(DerTlv(0x30, attribute)) + HeaderLength(attribute) + LabelOffsetInAttribute(subjectLabel)
  }

  lemma LabelOccursInAttribute(s: bytes, i: nat, subjectLabel: bytes)
    requires OccursAt(s, NameAttribute(subjectLabel), i)
    ensures OccursAt(s, subjectLabel, i + LabelOffsetInAttribute(subjectLabel))
  {
    var cn := Ascii(TEST_CN_PREFIX) + subjectLabel;
    var oid := DerTlv(0x06, [0x55, 0x04, 0x03]);
    SecondOccurs(s, i, oid, DerTlv(0x0C, cn));
    ValueOccurs(s, i + |oid|, 0x0C, cn);
    SecondOccurs(s, i + |oid| + HeaderLength(cn), Ascii(TEST_CN_PREFIX), subjectLabel);
  }

  lemma LabelOccursInName(s: bytes, i: nat, subjectLabel: bytes)
    requires OccursAt(s, NameContents(subjectLabel), i)
    ensures OccursAt(s, subjectLabel, i + LabelOffsetInName(subjectLabel))
  {
    var attribute := NameAttribute(subjectLabel);
    ValueOccurs(s, i, 0x31, DerTlv(0x30, attribute));
    ValueOccurs(s, i + HeaderLength(DerTlv(0x30, attribute)), 0x30, attribute);
    LabelOccursInAttribute(s, i + HeaderLength(DerTlv(0x30, attribute)) + HeaderLength(attribute), subjectLabel);
  }

  lemma SecondOccurs(s: bytes, i: nat, first: bytes, second: bytes)
    requires OccursAt(s, first + second, i)
    ensures OccursAt(s, second, i + |first|)
  {
    assert OccursAt(first + second, second, |first|);
    OccursWithin(s, i, first + second, |first|, second);
  }

  /** The position of the label in the issuer Name of a certificate. */
  function LabelOffset(p: Suite, q: Request): nat {
    FieldOffset(p, q, 3) + LabelOffsetInName(q.subjectLabel)
  }

  lemma LabelOccurs(p: Suite, q: Request)
    ensures OccursAt(CertificateDer(p, q), q.subjectLabel, LabelOffset(p, q))
  {
    FieldOccurs(p, q, 3);
    NamedFieldsAre(p, q);
    LabelOccursInName(CertificateDer(p, q), FieldOffset(p, q, 3), q.subjectLabel);
  }

  /**
    The search does not know where the extensions begin: a label that looks like one is read in
    its place, whatever entity the certificate was issued for.
   */
  lemma LookalikeLabelIsReadInstead(p: Suite, q: Request)
    requires q.subjectLabel == LookalikeLabel()
    requires forall i: nat :: i < LabelOffset(p, q) ==> !DecidesAt(CertificateDer(p, q), OID_SUBJECT_ALT_NAME, i)
    ensures SubjectAltName(CertificateDer(p, q)) == Some([])
  {
    LabelOccurs(p, q);
    ReadsBack(0x16, []);
    ReadsBack(0x30, DerTlv(0x16, []));
    SearchReadsFirstExtension(CertificateDer(p, q), OID_SUBJECT_ALT_NAME, LabelOffset(p, q), None, EmptySanValue());
  }
}
