/**
  What the certificate readers accept, said without them: a certificate is TLVs within TLVs
  (section 4.1 of RFC 5280), with the object identifiers of section 2.1.1 of RFC 5480 and of RFC 5639.
 */
module CertificateGrammar {
  import opened Bytes
  import opened Primitives
  import opened X509

  // ---------- the curve ----------

  /** The contents of an `AlgorithmIdentifier`: the OID id-ecPublicKey, then the OID of a curve. */
  ghost predicate IsEcAlgorithm(alg: bytes, oid: bytes) {
    exists r, r' ::
      && Begins(alg, 0x06, [0x2A, 0x86, 0x48, 0xCE, 0x3D, 0x02, 0x01], r)
      && Begins(r, 0x06, oid, r')
  }

  /** The same for one of the two curves. */
  ghost predicate NamesCurve(alg: bytes, curve: CurveKind) {
    match curve
    case P256 => IsEcAlgorithm(alg, [0x2A, 0x86, 0x48, 0xCE, 0x3D, 0x03, 0x01, 0x07])
    case BrainpoolP256r1 => IsEcAlgorithm(alg, [0x2B, 0x24, 0x03, 0x03, 0x02, 0x08, 0x01, 0x01, 0x07])
  }

  lemma EcAlgorithmExactly(alg: bytes, oid: bytes)
    ensures IsEcAlgorithm(alg, oid) <==>
            var id := ReadTlv(alg, 0x06);
            && id.Ok? && id.value.value == ID_EC_PUBLIC_KEY
            && ReadTlv(alg[id.value.used..], 0x06).Ok? && ReadTlv(alg[id.value.used..], 0x06).value.value == oid
  {
    forall r, r' | Begins(alg, 0x06, ID_EC_PUBLIC_KEY, r) && Begins(r, 0x06, oid, r')
      ensures ReadTlv(alg, 0x06).Ok? && ReadTlv(alg, 0x06).value.value == ID_EC_PUBLIC_KEY
      ensures r == alg[ReadTlv(alg, 0x06).value.used..]
      ensures ReadTlv(r, 0x06).Ok? && ReadTlv(r, 0x06).value.value == oid
    {
      BeginsExactly(alg, 0x06, ID_EC_PUBLIC_KEY, r);
      BeginsExactly(r, 0x06, oid, r');
    }
    var id := ReadTlv(alg, 0x06);
    if id.Ok? && id.value.value == ID_EC_PUBLIC_KEY {
      var r := alg[id.value.used..];
      BeginsExactly(alg, 0x06, ID_EC_PUBLIC_KEY, r);
      if ReadTlv(r, 0x06).Ok? {
        BeginsExactly(r, 0x06, oid, r[ReadTlv(r, 0x06).value.used..]);
      }
    }
  }

  /** The curve read is the one whose OID, octet for octet, follows id-ecPublicKey, and no other is read. */
  lemma CurveIsNamedExactly(alg: bytes, curve: CurveKind)
    ensures CurveFromAlgorithmIdentifier(alg) == Ok(curve) <==> NamesCurve(alg, curve)
    ensures CurveFromAlgorithmIdentifier(alg).Err? ==> CurveFromAlgorithmIdentifier(alg) == Err(Certificate)
  {
    EcAlgorithmExactly(alg, P256.Oid());
    EcAlgorithmExactly(alg, BrainpoolP256r1.Oid());
    assert |P256.Oid()| != |BrainpoolP256r1.Oid()|;
  }

  // ---------- the key ----------

  /** A `SubjectPublicKeyInfo`: the algorithm, and a BIT STRING of whole octets with the point. */
  ghost predicate IsSpki(spki: bytes, curve: CurveKind, point: bytes) {
    exists alg, r, r' ::
      && Begins(spki, 0x30, alg, r) && NamesCurve(alg, curve)
      && Begins(r, 0x03, [0x00] + point, r')
  }

  /** The input begins with a certificate whose tbsCertificate has these contents. */
  ghost predicate HasTbs(der: bytes, tbs: bytes) {
    exists body, r, r' :: Begins(der, 0x30, body, r) && Begins(body, 0x30, tbs, r')
  }

  /** The tbsCertificate is these elements, one after the other. */
  ghost predicate HasFields(der: bytes, es: seq<Element>) {
    exists tbs, raws :: HasTbs(der, tbs) && tbs == Concat(raws) && AreTlvsOf(raws, es)
  }

  /**
    The certificate carries this curve and point, of 65 octets, in the element at position 6 where
    the first is a version, and at position 5 where it is not.
   */
  ghost predicate Carries(der: bytes, curve: CurveKind, point: bytes) {
    |point| == 65 &&
    exists es: seq<Element> ::
      HasFields(der, es) && HasSpkiAt(es, if es != [] && es[0].tag == 0xA0 then 6 else 5, curve, point)
  }

  ghost predicate HasSpkiAt(es: seq<Element>, i: nat, curve: CurveKind, point: bytes) {
    i < |es| && es[i].tag == 0x30 && IsSpki(es[i].value, curve, point)
  }

  lemma TbsExactly(der: bytes, tbs: bytes)
    ensures HasTbs(der, tbs) <==> TbsOf(der) == Ok(tbs)
  {
    forall body, r, r' | Begins(der, 0x30, body, r) && Begins(body, 0x30, tbs, r')
      ensures TbsOf(der) == Ok(tbs)
    {
      BeginsExactly(der, 0x30, body, r);
      BeginsExactly(body, 0x30, tbs, r');
    }
    if TbsOf(der) == Ok(tbs) {
      var cert := ReadTlv(der, 0x30).value;
      BeginsExactly(der, 0x30, cert.value, der[cert.used..]);
      BeginsExactly(cert.value, 0x30, tbs, cert.value[ReadTlv(cert.value, 0x30).value.used..]);
    }
  }

  lemma FieldsExactly(der: bytes, es: seq<Element>)
    ensures HasFields(der, es) <==> TbsOf(der).Ok? && Elements(TbsOf(der).value) == Ok(es)
  {
    forall tbs: bytes
      ensures HasTbs(der, tbs) <==> TbsOf(der) == Ok(tbs)
    {
      TbsExactly(der, tbs);
    }
    if TbsOf(der).Ok? {
      ElementsTileInput(TbsOf(der).value, es);
    }
  }

  lemma SpkiExactly(p: Suite, spki: bytes, key: PublicKey)
    requires |key.point| == 65
    ensures IsSpki(spki, key.curve, key.point) ==> KeyFromSpki(p, spki) == PublicKeyFromBytes(p, key.curve, key.point)
    ensures KeyFromSpki(p, spki) == Ok(key) ==> IsSpki(spki, key.curve, key.point)
  {
    forall alg, r, r' |
      Begins(spki, 0x30, alg, r) && NamesCurve(alg, key.curve) && Begins(r, 0x03, [0x00] + key.point, r')
      ensures KeyFromSpki(p, spki) == PublicKeyFromBytes(p, key.curve, key.point)
    {
      BeginsExactly(spki, 0x30, alg, r);
      CurveIsNamedExactly(alg, key.curve);
      BeginsExactly(r, 0x03, [0x00] + key.point, r');
      assert ([0x00] + key.point)[1..] == key.point;
    }
    if KeyFromSpki(p, spki) == Ok(key) {
      var written := SpkiIsWritten(p, spki);
    }
  }

  /** What was not rejected for its form is a `SubjectPublicKeyInfo` of some curve and 65 octets. */
  lemma SpkiIsWritten(p: Suite, spki: bytes) returns (key: PublicKey)
    requires KeyFromSpki(p, spki).Ok? || KeyFromSpki(p, spki) == Err(Malformed)
    ensures |key.point| == 65 && IsSpki(spki, key.curve, key.point)
    ensures KeyFromSpki(p, spki) == PublicKeyFromBytes(p, key.curve, key.point)
  {
    var alg, r, bits := SpkiParts(p, spki);
    var curve := CurveFromAlgorithmIdentifier(alg.value).value;
    key := PublicKey(curve, bits.value[1..]);
    assert bits.value == [0x00] + key.point;
    BeginsExactly(spki, 0x30, alg.value, r);
    CurveIsNamedExactly(alg.value, curve);
    BeginsExactly(r, 0x03, [0x00] + key.point, r[bits.used..]);
  }

  lemma SpkiParts(p: Suite, spki: bytes) returns (alg: Read, r: bytes, bits: Read)
    requires KeyFromSpki(p, spki).Ok? || KeyFromSpki(p, spki) == Err(Malformed)
    ensures ReadTlv(spki, 0x30) == Ok(alg) && r == spki[alg.used..] && ReadTlv(r, 0x03) == Ok(bits)
    ensures CurveFromAlgorithmIdentifier(alg.value).Ok?
    ensures |bits.value| == 66 && bits.value[0] == 0x00
    ensures KeyFromSpki(p, spki)
            == PublicKeyFromBytes(p, CurveFromAlgorithmIdentifier(alg.value).value, bits.value[1..])
  {
    alg := ReadTlv(spki, 0x30).value;
    r := spki[alg.used..];
    bits := ReadTlv(r, 0x03).value;
  }

  /**
    A certificate is read with a key exactly when it carries that key's curve and point and the
    point is an uncompressed one on the curve; it is malformed exactly when it carries a curve and a
    point that are no such key; and in every other case it is no certificate.
   */
  lemma FromDerExactly(p: Suite, der: bytes, key: PublicKey)
    ensures FromDer(p, der) == Ok(ParsedCertificate(der, key)) <==>
            Carries(der, key.curve, key.point) && key.point[0] == 0x04 && p.onCurve(key.curve, key.point)
    ensures FromDer(p, der).Ok? ==> FromDer(p, der).value.der == der
    ensures FromDer(p, der) == Err(Malformed) <==>
            exists curve, point :: Carries(der, curve, point) && !(point[0] == 0x04 && p.onCurve(curve, point))
    ensures FromDer(p, der).Err? ==> FromDer(p, der).error in {Malformed, Certificate}
  {
    if Carries(der, key.curve, key.point) {
      CarriedIsRead(p, der, key.curve, key.point);
    }
    if FromDer(p, der).Ok? {
      var carried := ReadIsCarried(p, der);
    }
    MalformedExactly(p, der);
  }

  lemma MalformedExactly(p: Suite, der: bytes)
    ensures FromDer(p, der) == Err(Malformed) <==>
            exists curve, point :: Carries(der, curve, point) && !(point[0] == 0x04 && p.onCurve(curve, point))
  {
    if curve, point :| Carries(der, curve, point) && !(point[0] == 0x04 && p.onCurve(curve, point)) {
      CarriedIsRead(p, der, curve, point);
    }
    if FromDer(p, der) == Err(Malformed) {
      var carried := ReadIsCarried(p, der);
    }
  }

  lemma CarriedIsRead(p: Suite, der: bytes, curve: CurveKind, point: bytes)
    requires Carries(der, curve, point)
    ensures SpkiKey(p, der) == PublicKeyFromBytes(p, curve, point)
    ensures der != []
  {
    var es: seq<Element> :|
      HasFields(der, es) && HasSpkiAt(es, if es != [] && es[0].tag == 0xA0 then 6 else 5, curve, point);
    FieldsExactly(der, es);
    SpkiExactly(p, es[SpkiIndex(es)].value, PublicKey(curve, point));
  }

  lemma ReadIsCarried(p: Suite, der: bytes) returns (key: PublicKey)
    requires SpkiKey(p, der).Ok? || SpkiKey(p, der) == Err(Malformed)
    ensures Carries(der, key.curve, key.point)
    ensures SpkiKey(p, der) == PublicKeyFromBytes(p, key.curve, key.point)
  {
    var es := Elements(TbsOf(der).value).value;
    FieldsExactly(der, es);
    key := SpkiIsWritten(p, es[SpkiIndex(es)].value);
  }

  // ---------- the curve by shape ----------

  /** A SEQUENCE that begins with the SEQUENCE of an EC algorithm naming this curve, known or not. */
  ghost predicate IsShaped(e: Element, oid: bytes) {
    e.tag == 0x30 && exists inner, r :: Begins(e.value, 0x30, inner, r) && IsEcAlgorithm(inner, oid)
  }

  ghost predicate AreUnshaped(es: seq<Element>) {
    forall i, oid :: 0 <= i < |es| ==> !IsShaped(es[i], oid)
  }

  /** `s` is the TLVs of these elements, and then `rest`. */
  ghost predicate Walks(s: bytes, es: seq<Element>, rest: bytes) {
    exists raws :: AreTlvsOf(raws, es) && s == Concat(raws) + rest
  }

  /** After unshaped elements `s` holds a shaped one; what follows that need not be TLVs at all. */
  ghost predicate ReachesShaped(s: bytes, oid: bytes) {
    exists es, rest, e: Element, rest' ::
      && Walks(s, es, rest) && AreUnshaped(es)
      && Begins(rest, e.tag, e.value, rest') && IsShaped(e, oid)
  }

  lemma ShapeExactly(e: Element, oid: bytes)
    ensures ShapedCurveOid(e) == Some(oid) <==> IsShaped(e, oid)
  {
    forall inner, r | Begins(e.value, 0x30, inner, r) && IsEcAlgorithm(inner, oid)
      ensures e.tag == 0x30 ==> ShapedCurveOid(e) == Some(oid)
    {
      BeginsExactly(e.value, 0x30, inner, r);
      EcAlgorithmExactly(inner, oid);
    }
    if ShapedCurveOid(e) == Some(oid) {
      var inner := ReadTlvAny(e.value).value;
      BeginsExactly(e.value, 0x30, inner.value, e.value[inner.used..]);
      EcAlgorithmExactly(inner.value, oid);
    }
  }

  lemma {:induction false} FirstShapedIsReached(s: bytes, oid: bytes)
    requires FirstShapedOid(s) == Some(oid)
    ensures ReachesShaped(s, oid)
    decreases |s|
  {
    var t := ReadTlvAny(s).value;
    var e := Element(t.tag, t.value);
    var tail := s[t.used..];
    BeginsExactly(s, t.tag, t.value, tail);
    if ShapedCurveOid(e).Some? {
      ShapeExactly(e, oid);
      NothingWalked(s);
      assert AreUnshaped([]);
    } else {
      FirstShapedIsReached(tail, oid);
      forall oid'
        ensures !IsShaped(e, oid')
      {
        ShapeExactly(e, oid');
      }
      ReachedOneFurther(s, e, tail, oid);
    }
  }

  lemma ReachedOneFurther(s: bytes, e: Element, tail: bytes, oid: bytes)
    requires Begins(s, e.tag, e.value, tail) && ReachesShaped(tail, oid)
    requires forall oid' :: !IsShaped(e, oid')
    ensures ReachesShaped(s, oid)
  {
    var es, rest, e': Element, rest' :|
      Walks(tail, es, rest) && AreUnshaped(es) && Begins(rest, e'.tag, e'.value, rest') && IsShaped(e', oid);
    OneMoreWalked(s, e, tail, es, rest);
    assert AreUnshaped([e] + es);
  }

  lemma NothingWalked(s: bytes)
    ensures Walks(s, [], s)
  {
    assert AreTlvsOf([], []) && s == Concat([]) + s;
  }

  lemma OneMoreWalked(s: bytes, e: Element, tail: bytes, es: seq<Element>, rest: bytes)
    requires Begins(s, e.tag, e.value, tail) && Walks(tail, es, rest)
    ensures Walks(s, [e] + es, rest)
  {
    var t :| IsTlv(t, e.tag, e.value) && s == t + tail;
    var raws :| AreTlvsOf(raws, es) && tail == Concat(raws) + rest;
    TlvsWithFirst(t, e, raws, es);
    ConcatWithFirst(t, raws);
    assert t + (Concat(raws) + rest) == (t + Concat(raws)) + rest;
  }

  lemma FirstWalked(s: bytes, es: seq<Element>, rest: bytes) returns (tail: bytes)
    requires es != [] && Walks(s, es, rest)
    ensures Begins(s, es[0].tag, es[0].value, tail) && Walks(tail, es[1..], rest)
  {
    var raws :| AreTlvsOf(raws, es) && s == Concat(raws) + rest;
    tail := Concat(raws[1..]) + rest;
    assert IsTlv(raws[0], es[0].tag, es[0].value) && AreTlvsOf(raws[1..], es[1..]);
    assert s == raws[0] + tail;
  }

  lemma {:induction false} ReachedIsFirstShaped(
    s: bytes, es: seq<Element>, rest: bytes, e: Element, rest': bytes, oid: bytes)
    requires Walks(s, es, rest) && AreUnshaped(es)
    requires Begins(rest, e.tag, e.value, rest') && IsShaped(e, oid)
    ensures FirstShapedOid(s) == Some(oid)
    decreases |es|
  {
    if es == [] {
      var raws :| AreTlvsOf(raws, es) && s == Concat(raws) + rest;
      assert s == rest;
      BeginsExactly(s, e.tag, e.value, rest');
      ShapeExactly(e, oid);
    } else {
      var tail := FirstWalked(s, es, rest);
      BeginsExactly(s, es[0].tag, es[0].value, tail);
      if ShapedCurveOid(es[0]).Some? {
        ShapeExactly(es[0], ShapedCurveOid(es[0]).value);
      }
      assert forall i :: 0 <= i < |es[1..]| ==> es[1..][i] == es[i + 1];
      ReachedIsFirstShaped(tail, es[1..], rest, e, rest', oid);
    }
  }

  lemma FirstShapedExactly(s: bytes, oid: bytes)
    ensures FirstShapedOid(s) == Some(oid) <==> ReachesShaped(s, oid)
  {
    if FirstShapedOid(s) == Some(oid) {
      FirstShapedIsReached(s, oid);
    }
    if es, rest, e: Element, rest' :|
      Walks(s, es, rest) && AreUnshaped(es) && Begins(rest, e.tag, e.value, rest') && IsShaped(e, oid)
    {
      ReachedIsFirstShaped(s, es, rest, e, rest', oid);
    }
  }

  /** The reader by shape, on any input at all: unknown curves, unreadable tails and whatever outer tags included. */
  lemma NamedCurveExactly(der: bytes, oid: bytes)
    ensures NamedCurveOid(der) == Some(oid) <==>
            exists t, body, r, t', tbs, r' ::
              Begins(der, t, body, r) && Begins(body, t', tbs, r') && ReachesShaped(tbs, oid)
  {
    forall t, body, r, t', tbs, r' | Begins(der, t, body, r) && Begins(body, t', tbs, r')
      ensures NamedCurveOid(der) == FirstShapedOid(tbs)
    {
      BeginsExactly(der, t, body, r);
      BeginsExactly(body, t', tbs, r');
    }
    forall tbs
      ensures ReachesShaped(tbs, oid) <==> FirstShapedOid(tbs) == Some(oid)
    {
      FirstShapedExactly(tbs, oid);
    }
    if NamedCurveOid(der) == Some(oid) {
      var cert := ReadTlvAny(der).value;
      var tbs := ReadTlvAny(cert.value).value;
      BeginsExactly(der, cert.tag, cert.value, der[cert.used..]);
      BeginsExactly(cert.value, tbs.tag, tbs.value, cert.value[tbs.used..]);
    }
  }

  // ---------- the signed bytes and the signature ----------

  /** A certificate's contents: `used` octets of tbsCertificate, an algorithm, and a BIT STRING of whole octets. */
  ghost predicate IsBody(body: bytes, used: nat, signature: bytes) {
    exists tbs, r, alg, r', r'' ::
      && Begins(body, 0x30, tbs, r) && Begins(r, 0x30, alg, r') && Begins(r', 0x03, [0x00] + signature, r'')
      && used == |body| - |r|
  }

  /**
    What counts as signed: as many octets as the tbsCertificate has, from as many octets into the
    certificate's contents and what follows them as do follow them.
   */
  ghost predicate CountsAsSigned(der: bytes, signed: Signed) {
    exists body, rest, used ::
      Begins(der, 0x30, body, rest) && IsBody(body, used, signed.signature) && LiesAt(signed.tbs, body + rest, |rest|, used)
  }

  /** `part` is the `n` octets of `s` from position `i`. */
  ghost predicate LiesAt(part: bytes, s: bytes, i: nat, n: nat) {
    i + n <= |s| && part == s[i..i + n]
  }

  lemma BodyExactly(body: bytes, used: nat, signature: bytes)
    ensures IsBody(body, used, signature) <==> SplitBody(body) == Ok(BodyParts(used, signature))
  {
    if IsBody(body, used, signature) {
      var tbs, r, alg, r', r'' :|
        && Begins(body, 0x30, tbs, r) && Begins(r, 0x30, alg, r') && Begins(r', 0x03, [0x00] + signature, r'')
        && used == |body| - |r|;
      BodyIsSplit(body, tbs, r, alg, r', signature, r'');
    }
    if SplitBody(body) == Ok(BodyParts(used, signature)) {
      SplitIsBody(body);
    }
  }

  lemma BodyIsSplit(body: bytes, tbs: bytes, r: bytes, alg: bytes, r': bytes, signature: bytes, r'': bytes)
    requires Begins(body, 0x30, tbs, r) && Begins(r, 0x30, alg, r') && Begins(r', 0x03, [0x00] + signature, r'')
    ensures SplitBody(body).Ok? && SplitBody(body).value.signature == signature
    ensures SplitBody(body).value.tbsUsed == |body| - |r|
  {
    BeginsExactly(body, 0x30, tbs, r);
    BeginsExactly(r, 0x30, alg, r');
    BeginsExactly(r', 0x03, [0x00] + signature, r'');
    assert ([0x00] + signature)[1..] == signature;
  }

  lemma SplitIsBody(body: bytes)
    requires SplitBody(body).Ok?
    ensures IsBody(body, SplitBody(body).value.tbsUsed, SplitBody(body).value.signature)
  {
    var tbs, r, alg, r', bits := SplitParts(body);
    assert bits.value == [0x00] + bits.value[1..];
    BeginsExactly(body, 0x30, tbs.value, r);
    BeginsExactly(r, 0x30, alg.value, r');
    BeginsExactly(r', 0x03, bits.value, r'[bits.used..]);
  }

  lemma SplitParts(body: bytes) returns (tbs: Read, r: bytes, alg: Read, r': bytes, bits: Read)
    requires SplitBody(body).Ok?
    ensures ReadTlv(body, 0x30) == Ok(tbs) && r == body[tbs.used..]
    ensures ReadTlv(r, 0x30) == Ok(alg) && r' == r[alg.used..]
    ensures ReadTlv(r', 0x03) == Ok(bits) && bits.value != [] && bits.value[0] == 0x00
    ensures SplitBody(body) == Ok(BodyParts(tbs.used, bits.value[1..]))
  {
    tbs := ReadTlv(body, 0x30).value;
    r := body[tbs.used..];
    alg := ReadTlv(r, 0x30).value;
    r' := r[alg.used..];
    bits := ReadTlv(r', 0x03).value;
  }

  lemma SignedExactly(der: bytes, signed: Signed)
    ensures TbsAndSignature(der) == Ok(signed) <==> CountsAsSigned(der, signed)
  {
    forall body, rest, used |
      Begins(der, 0x30, body, rest) && IsBody(body, used, signed.signature) && LiesAt(signed.tbs, body + rest, |rest|, used)
      ensures TbsAndSignature(der) == Ok(signed)
    {
      BodyExactly(body, used, signed.signature);
      BodyAndRest(der, body, rest, used, signed.signature);
    }
    if TbsAndSignature(der) == Ok(signed) {
      var cert := ReadTlv(der, 0x30).value;
      SplitIsBody(cert.value);
      BeginsExactly(der, 0x30, cert.value, der[cert.used..]);
      BodyAndRest(der, cert.value, der[cert.used..], SplitBody(cert.value).value.tbsUsed, signed.signature);
    }
  }

  lemma BodyAndRest(der: bytes, body: bytes, rest: bytes, used: nat, signature: bytes)
    requires Begins(der, 0x30, body, rest) && SplitBody(body) == Ok(BodyParts(used, signature))
    ensures TbsAndSignature(der).Ok? && TbsAndSignature(der).value.signature == signature
    ensures LiesAt(TbsAndSignature(der).value.tbs, body + rest, |rest|, used)
  {
    var front := HeaderOf(der, 0x30, body, rest);
    BeginsExactly(der, 0x30, body, rest);
    EndOfInput(front, body, rest, used);
    TbsAndSignatureOfBody(der, body, ReadTlvAny(der).value.used);
  }

  /** What comes before the value of the TLV an input begins with. */
  lemma HeaderOf(s: bytes, tag: byte, value: bytes, rest: bytes) returns (front: bytes)
    requires Begins(s, tag, value, rest)
    ensures s == front + (value + rest)
  {
    var t :| IsTlv(t, tag, value) && s == t + rest;
    var l :| IsTlvWith(t, l, tag, value);
    front := [tag] + l;
    assert t + rest == front + (value + rest);
  }

  /** Verification, on any input: of what counts as signed, or of nothing. */
  lemma VerificationExactly(p: Suite, der: bytes, key: PublicKey)
    ensures VerifySignedByKey(p, der, key) == Ok(()) <==>
            exists signed :: CountsAsSigned(der, signed) && p.verifyDer(key, signed.tbs, signed.signature)
    ensures VerifySignedByKey(p, der, key) == Err(VerificationFailed) <==>
            exists signed :: CountsAsSigned(der, signed) && !p.verifyDer(key, signed.tbs, signed.signature)
    ensures VerifySignedByKey(p, der, key).Err? ==>
              VerifySignedByKey(p, der, key).error in {VerificationFailed, Certificate}
  {
    forall signed
      ensures TbsAndSignature(der) == Ok(signed) <==> CountsAsSigned(der, signed)
    {
      SignedExactly(der, signed);
    }
    if TbsAndSignature(der).Ok? {
      assert CountsAsSigned(der, TbsAndSignature(der).value);
    }
  }
}
