/**
  The certificate printer and the certificate readers undo each other: what `testpki.rs` issues,
  `x509.rs` reads back.
 */
module Certificates {
  import opened Bytes
  import opened Primitives
  import opened X509
  import opened TestPki
  import Wire

  /** The certificate's contents fit the two length octets that are written. */
  predicate Fits(p: Suite, q: Request) {
    |CertificateContents(p, q)| <= Wire.MAX_LENGTH
  }

  // ---------- sizes ----------

  lemma TlvCovers(tag: byte, value: bytes)
    ensures |value| + 2 <= |DerTlv(tag, value)| <= |value| + 4
  {
  }

  lemma SizesFit(p: Suite, q: Request)
    requires |TbsContents(p, q)| <= Wire.MAX_LENGTH
    ensures forall i :: 0 <= i < |TbsElements(p, q)| ==> |TbsElements(p, q)[i].value| <= Wire.MAX_LENGTH
  {
    var es := TbsElements(p, q);
    forall i | 0 <= i < |es|
      ensures |es[i].value| <= Wire.MAX_LENGTH
    {
      ConcatCovers(Encoded(es), i);
      TlvCovers(es[i].tag, es[i].value);
    }
  }

  lemma TbsFits(p: Suite, q: Request)
    requires Fits(p, q)
    ensures |TbsContents(p, q)| <= Wire.MAX_LENGTH
  {
    TlvCovers(0x30, TbsContents(p, q));
  }

  // ---------- the structure ----------

  lemma ReadsWhole(tag: byte, value: bytes)
    requires |value| <= Wire.MAX_LENGTH
    ensures ReadTlvAny(DerTlv(tag, value)) == Ok(Read(tag, value, |DerTlv(tag, value)|))
  {
    ReadTlvAnyUndoesDerTlv(tag, value, []);
    assert DerTlv(tag, value) + [] == DerTlv(tag, value);
  }

  /** The tbsCertificate parses into exactly the eight fields written, in their order, whatever follows. */
  lemma TbsReadsBack(p: Suite, q: Request, rest: bytes)
    requires Fits(p, q)
    ensures TbsOf(CertificateDer(p, q) + rest) == Ok(TbsContents(p, q))
    ensures OwnTbs(CertificateDer(p, q) + rest) == Ok(DerTlv(0x30, TbsContents(p, q)))
    ensures Elements(TbsContents(p, q)) == Ok(TbsElements(p, q))
  {
    var tbs, body := TbsContents(p, q), CertificateContents(p, q);
    ReadTlvAnyUndoesDerTlv(0x30, body, rest);
    PrintedReadsBack(CertificateDer(p, q) + rest, |CertificateDer(p, q)|,
                     tbs, SignatureAlgorithm(), p.signDer(q.issuer, DerTlv(0x30, tbs)));
    TbsFits(p, q);
    SizesFit(p, q);
    ElementsUndoPrinting(TbsElements(p, q));
  }

  /**
    The structure that is written, down to the fields. The builder's comment shows a tbsCertificate
    without the extensions and an outer algorithm without the NULL: no issued certificate is that.
   */
  lemma IssuedStructure(p: Suite, q: Request)
    requires Fits(p, q)
    ensures var tbs := TbsContents(p, q);
            Elements(CertificateContents(p, q)) == Ok([
              Element(0x30, tbs),
              Element(0x30, SignatureAlgorithm()),
              Element(0x03, [0x00] + p.signDer(q.issuer, DerTlv(0x30, tbs)))])
    ensures Elements(TbsContents(p, q)) == Ok(TbsElements(p, q))
    ensures |TbsElements(p, q)| == 8 && TbsElements(p, q)[7].tag == 0xA3
    ensures Elements(SignatureAlgorithm()) == Ok([Element(0x06, OID_ECDSA_SHA256), Element(0x05, [])])
  {
    var tbs := TbsContents(p, q);
    TbsReadsBack(p, q, []);
    PrintedElements(tbs, SignatureAlgorithm(), p.signDer(q.issuer, DerTlv(0x30, tbs)));
    var alg := [Element(0x06, OID_ECDSA_SHA256), Element(0x05, [])];
    ElementsUndoPrinting(alg);
    PairPrinted(alg);
  }

  lemma PairPrinted(es: seq<Element>)
    requires |es| == 2
    ensures Concat(Encoded(es)) == DerTlv(es[0].tag, es[0].value) + DerTlv(es[1].tag, es[1].value)
  {
    var a, b := DerTlv(es[0].tag, es[0].value), DerTlv(es[1].tag, es[1].value);
    assert Encoded(es) == [a] + [b];
    ConcatWithFirst(a, [b]);
    ConcatWithFirst(b, []);
    assert [b] + [] == [b] && b + [] == b;
  }

  lemma PrintedElements(tbs: bytes, alg: bytes, signature: bytes)
    requires |CertificateBody(tbs, alg, signature)| <= Wire.MAX_LENGTH
    ensures Elements(CertificateBody(tbs, alg, signature))
            == Ok([Element(0x30, tbs), Element(0x30, alg), Element(0x03, [0x00] + signature)])
  {
    TlvCovers(0x30, tbs);
    TlvCovers(0x30, alg);
    TlvCovers(0x03, [0x00] + signature);
    var es := [Element(0x30, tbs), Element(0x30, alg), Element(0x03, [0x00] + signature)];
    TriplePrinted(es);
    ElementsUndoPrinting(es);
  }

  lemma TriplePrinted(es: seq<Element>)
    requires |es| == 3
    ensures Concat(Encoded(es))
            == DerTlv(es[0].tag, es[0].value) + DerTlv(es[1].tag, es[1].value) + DerTlv(es[2].tag, es[2].value)
  {
    var first := DerTlv(es[0].tag, es[0].value);
    assert Encoded(es) == [first] + Encoded(es[1..]);
    ConcatWithFirst(first, Encoded(es[1..]));
    PairPrinted(es[1..]);
  }

  lemma AlgorithmReadsBack(curve: CurveKind)
    ensures CurveFromAlgorithmIdentifier(SpkiAlgorithm(curve)) == Ok(curve)
  {
    var id, named := DerTlv(0x06, ID_EC_PUBLIC_KEY), DerTlv(0x06, curve.Oid());
    ReadTlvAnyUndoesDerTlv(0x06, ID_EC_PUBLIC_KEY, named);
    ReadsWhole(0x06, curve.Oid());
    assert SpkiAlgorithm(curve)[|id|..] == named;
    assert P256.Oid() != BrainpoolP256r1.Oid() by {
      assert |P256.Oid()| != |BrainpoolP256r1.Oid()|;
    }
  }

  lemma SpkiReadsBack(p: Suite, key: PublicKey)
    requires |SpkiContents(key)| <= Wire.MAX_LENGTH
    ensures KeyFromSpki(p, SpkiContents(key)).Ok? <==> p.IsPublicKey(key)
    ensures p.IsPublicKey(key) ==> KeyFromSpki(p, SpkiContents(key)) == Ok(key)
  {
    var alg, bits := SpkiAlgorithm(key.curve), DerTlv(0x03, [0x00] + key.point);
    TlvCovers(0x30, alg);
    TlvCovers(0x03, [0x00] + key.point);
    ReadTlvAnyUndoesDerTlv(0x30, alg, bits);
    AlgorithmReadsBack(key.curve);
    ReadsWhole(0x03, [0x00] + key.point);
    assert SpkiContents(key)[|DerTlv(0x30, alg)|..] == bits;
    assert ([0x00] + key.point)[1..] == key.point;
  }

  // ---------- the round trip ----------

  /** An input whose tbsCertificate is an issued one gives that one's subject key, if it is a public key. */
  lemma TbsGivesItsKey(p: Suite, q: Request, der: bytes)
    requires TbsOf(der) == Ok(TbsContents(p, q)) && |TbsContents(p, q)| <= Wire.MAX_LENGTH
    ensures FromDer(p, der) == Ok(ParsedCertificate(der, q.subject)) <==> p.IsPublicKey(q.subject)
    ensures FromDer(p, der).Ok? <==> p.IsPublicKey(q.subject)
  {
    var es := TbsElements(p, q);
    SizesFit(p, q);
    ElementsUndoPrinting(es);
    assert SpkiIndex(es) == 6 && es[6] == Element(0x30, SpkiContents(q.subject));
    assert |es[6].value| <= Wire.MAX_LENGTH;
    SpkiReadsBack(p, q.subject);
  }

  /**
    Every issued certificate that fits is read back with the subject's curve and point, exactly
    when those are a public key, and whatever octets follow it.
   */
  lemma IssuedKeyReadsBack(p: Suite, q: Request, rest: bytes)
    requires Fits(p, q)
    ensures var der := CertificateDer(p, q) + rest;
            && (FromDer(p, der) == Ok(ParsedCertificate(der, q.subject)) <==> p.IsPublicKey(q.subject))
            && (FromDer(p, der).Ok? <==> p.IsPublicKey(q.subject))
  {
    TbsReadsBack(p, q, rest);
    TbsFits(p, q);
    TbsGivesItsKey(p, q, CertificateDer(p, q) + rest);
  }

  /** The signature found, and where the signed bytes are looked for, when octets follow the certificate. */
  lemma SignedBytesWithRest(p: Suite, q: Request, rest: bytes)
    requires Fits(p, q)
    ensures var der, body := CertificateDer(p, q) + rest, CertificateContents(p, q);
            var tbsTlv := DerTlv(0x30, TbsContents(p, q));
            && |tbsTlv| <= |body| <= |der|
            && TbsAndSignature(der) == Ok(Signed(TbsSlice(der, |body|, |tbsTlv|), p.signDer(q.issuer, tbsTlv)))
  {
    var tbs, body := TbsContents(p, q), CertificateContents(p, q);
    ReadTlvAnyUndoesDerTlv(0x30, body, rest);
    PrintedReadsBack(CertificateDer(p, q) + rest, |CertificateDer(p, q)|,
                     tbs, SignatureAlgorithm(), p.signDer(q.issuer, DerTlv(0x30, tbs)));
  }

  /** The bytes taken as signed are the tbsCertificate TLV that was signed, and the signature is the one made. */
  lemma IssuedSignatureReadsBack(p: Suite, q: Request)
    requires Fits(p, q)
    ensures var tbsTlv := DerTlv(0x30, TbsContents(p, q));
            TbsAndSignature(CertificateDer(p, q)) == Ok(Signed(tbsTlv, p.signDer(q.issuer, tbsTlv)))
  {
    var tbs, body := TbsContents(p, q), CertificateContents(p, q);
    SignedBytesWithRest(p, q, []);
    BodyStartsWithTbs(tbs, SignatureAlgorithm(), p.signDer(q.issuer, DerTlv(0x30, tbs)));
    SliceOfTlvAndRest(body, [], |DerTlv(0x30, tbs)|);
    assert CertificateDer(p, q) + [] == CertificateDer(p, q);
  }

  /**
    One octet after an issued certificate leaves it readable, with the same key and signature, and
    makes other bytes than its tbsCertificate count as signed.
   */
  lemma TrailingOctetMovesSignedBytes(p: Suite, q: Request, octet: byte)
    requires Fits(p, q) && p.IsPublicKey(q.subject)
    ensures var der := CertificateDer(p, q) + [octet];
            var tbsTlv := DerTlv(0x30, TbsContents(p, q));
            && FromDer(p, der) == Ok(ParsedCertificate(der, q.subject))
            && OwnTbs(der) == Ok(tbsTlv)
            && TbsAndSignature(der).Ok?
            && TbsAndSignature(der).value.signature == p.signDer(q.issuer, tbsTlv)
            && TbsAndSignature(der).value.tbs != tbsTlv
  {
    var tbs := TbsContents(p, q);
    IssuedKeyReadsBack(p, q, [octet]);
    TbsReadsBack(p, q, [octet]);
    SignedBytesWithRest(p, q, [octet]);
    TbsIsLong(p, q);
    OctetAfterMovesSlice(tbs, SignatureAlgorithm(), p.signDer(q.issuer, DerTlv(0x30, tbs)), octet);
  }

  /** The tbsCertificate is longer than its tag is large, so no length octet in it looks like that tag. */
  lemma TbsIsLong(p: Suite, q: Request)
    requires p.IsPublicKey(q.subject)
    ensures |TbsContents(p, q)| > 0x30
    ensures Wire.DerLength(|TbsContents(p, q)|)[0] != 0x30
  {
    var es := TbsElements(p, q);
    ConcatCovers(Encoded(es), 6);
    TlvCovers(0x30, SpkiContents(q.subject));
    TlvCovers(0x03, [0x00] + q.subject.point);
  }

  /** An issued certificate verifies under its issuer's key. */
  lemma IssuedCertificateVerifies(p: Suite, q: Request)
    requires Fits(p, q) && p.SigningIsCorrect()
    ensures VerifySignedByKey(p, CertificateDer(p, q), p.PublicKeyOf(q.issuer)) == Ok(())
  {
    IssuedSignatureReadsBack(p, q);
  }

  /** A certificate for the request `own`, and after it the tbsCertificate of `q`, with the signature made over that. */
  function WithSignedTbsAfter(p: Suite, q: Request, own: Request): bytes {
    var following := TbsContents(p, q);
    WithFollowing(TbsContents(p, own), following, SignatureAlgorithm(), p.signDer(q.issuer, DerTlv(0x30, following)))
  }

  /**
    Why acceptance needs that nothing follows the certificate: here the certificate that is read,
    subject key included, is one request's, and what verifies is the tbsCertificate of another,
    which follows it.
   */
  lemma FollowingTbsIsVerifiedInstead(p: Suite, q: Request, own: Request)
    requires Fits(p, q) && p.SigningIsCorrect() && p.IsPublicKey(own.subject)
    requires |TbsContents(p, own)| == |TbsContents(p, q)|
    ensures var der := WithSignedTbsAfter(p, q, own);
            && FromDer(p, der) == Ok(ParsedCertificate(der, own.subject))
            && OwnTbs(der) == Ok(DerTlv(0x30, TbsContents(p, own)))
            && VerifySignedByKey(p, der, p.PublicKeyOf(q.issuer)) == Ok(())
  {
    var following := TbsContents(p, q);
    var signature := p.signDer(q.issuer, DerTlv(0x30, following));
    BodyLength(TbsContents(p, own), following, SignatureAlgorithm(), signature);
    FollowingTlvCountsAsSigned(TbsContents(p, own), following, SignatureAlgorithm(), signature);
    TbsFits(p, q);
    TbsGivesItsKey(p, own, WithSignedTbsAfter(p, q, own));
  }

  /** Requests that differ in the label and the subject key, but in no length, print to one length. */
  lemma AlikeRequestsPrintAlike(p: Suite, q: Request, subjectLabel: bytes, subject: PublicKey)
    requires |subjectLabel| == |q.subjectLabel|
    requires subject.curve == q.subject.curve && |subject.point| == |q.subject.point|
    requires |SerialNumber(p, subject)| == |SerialNumber(p, q.subject)|
    ensures |TbsContents(p, q.(subjectLabel := subjectLabel, subject := subject))| == |TbsContents(p, q)|
  {
    var own := q.(subjectLabel := subjectLabel, subject := subject);
    NameLength(subjectLabel, q.subjectLabel);
    SpkiLength(subject, q.subject);
    assert Extensions(p, own) == Extensions(p, q);
    PrintedLength(TbsElements(p, own), TbsElements(p, q));
  }

  lemma NameLength(a: bytes, b: bytes)
    requires |a| == |b|
    ensures |NameContents(a)| == |NameContents(b)|
  {
  }

  lemma SpkiLength(a: PublicKey, b: PublicKey)
    requires a.curve == b.curve && |a.point| == |b.point|
    ensures |SpkiContents(a)| == |SpkiContents(b)|
  {
  }

  lemma {:induction false} PrintedLength(es: seq<Element>, fs: seq<Element>)
    requires |es| == |fs| && forall i :: 0 <= i < |es| ==> |es[i].value| == |fs[i].value|
    ensures |Concat(Encoded(es))| == |Concat(Encoded(fs))|
  {
    if es != [] {
      assert Encoded(es)[1..] == Encoded(es[1..]) && Encoded(fs)[1..] == Encoded(fs[1..]);
      PrintedLength(es[1..], fs[1..]);
    }
  }

  lemma BodyLength(own: bytes, following: bytes, alg: bytes, signature: bytes)
    requires |own| == |following|
    ensures |CertificateBody(own, alg, signature)| == |CertificateBody(following, alg, signature)|
  {
  }

  /** On issued certificates the reader by shape finds the subject's curve too. */
  lemma IssuedCurveReadsBack(p: Suite, q: Request)
    requires Fits(p, q)
    ensures NamedCurveOid(CertificateDer(p, q)) == Some(q.subject.curve.Oid())
  {
    TbsReadsBack(p, q, []);
    assert CertificateDer(p, q) + [] == CertificateDer(p, q);
    CurveReaderReadsTbs(CertificateDer(p, q));
    TbsFits(p, q);
    SizesFit(p, q);
    var es := TbsElements(p, q);
    FirstShapedOidOfElements(TbsContents(p, q));
    EarlierFieldsAreUnshaped(p, q);
    assert |es[6].value| <= Wire.MAX_LENGTH;
    SpkiIsShaped(q.subject);
    FirstShapedSkips(es, 6);
  }

  lemma CurveReaderReadsTbs(der: bytes)
    requires TbsOf(der).Ok?
    ensures NamedCurveOid(der) == FirstShapedOid(TbsOf(der).value)
  {
  }

  lemma SpkiIsShaped(key: PublicKey)
    requires |SpkiContents(key)| <= Wire.MAX_LENGTH
    ensures ShapedCurveOid(Element(0x30, SpkiContents(key))) == Some(key.curve.Oid())
  {
    var alg, bits := SpkiAlgorithm(key.curve), DerTlv(0x03, [0x00] + key.point);
    TlvCovers(0x30, alg);
    ReadTlvAnyUndoesDerTlv(0x30, alg, bits);
    var id, named := DerTlv(0x06, ID_EC_PUBLIC_KEY), DerTlv(0x06, key.curve.Oid());
    ReadTlvAnyUndoesDerTlv(0x06, ID_EC_PUBLIC_KEY, named);
    ReadsWhole(0x06, key.curve.Oid());
    assert alg[|id|..] == named;
  }

  /** No field before the SPKI begins with a nested SEQUENCE. */
  lemma EarlierFieldsAreUnshaped(p: Suite, q: Request)
    requires |TbsContents(p, q)| <= Wire.MAX_LENGTH
    ensures FirstShaped(TbsElements(p, q)[..6]).None?
  {
    var es := TbsElements(p, q);
    SizesFit(p, q);
    StartsWithTag(0x06, OID_ECDSA_SHA256, DerTlv(0x05, []));
    var utc := Ascii("250101000000Z");
    StartsWithTag(0x17, utc, DerTlv(0x17, utc));
    NameStartsWithSet(q.subjectLabel);
    PlainElementsAreUnshaped(es[..6]);
  }

  lemma StartsWithTag(tag: byte, value: bytes, rest: bytes)
    ensures ReadTlvAny(DerTlv(tag, value) + rest).Ok? ==> ReadTlvAny(DerTlv(tag, value) + rest).value.tag == tag
  {
  }

  lemma NameStartsWithSet(subjectLabel: bytes)
    ensures ReadTlvAny(NameContents(subjectLabel)).Ok? ==> ReadTlvAny(NameContents(subjectLabel)).value.tag == 0x31
  {
  }
}
