/**
  Reading DER certificates (section 4.1 of RFC 5280): the subject public key by position, the
  curve by shape, the signed bytes and signature, and the extensions by OID search.

  Each loop of the source is a method here, proved against a function that says what is read.
 */
module X509 {
  import opened Bytes
  import opened Primitives
  import Wire

  // ---------- TLVs with one-octet tags ----------

  datatype Read = Read(tag: byte, value: bytes, used: nat)

  /** The reader's loop; a copy of the one in `wire.rs` with its own error. */
  method ReadLength(input: bytes) returns (r: Result<Wire.Length>)
    ensures r.Ok? <==> Wire.LengthField(input).Some?
    ensures r.Ok? ==> r.value == Wire.LengthField(input).value
    ensures r.Err? ==> r.error == Certificate
  {
    if input == [] {
      return Err(Certificate);
    }
    var first := input[0];
    if first < 0x80 {
      return Ok(Wire.Length(first as nat, 1));
    }
    var count := (first % 0x80) as nat;
    if count == 0 || count == 0x7F || count > 4 || |input| < 1 + count || input[1] == 0 {
      return Err(Certificate);
    }
    var len := 0;
    var k := 1;
    while k < 1 + count
      invariant 1 <= k <= 1 + count
      invariant len == BigEndianValue(input[1..k])
    {
      Wire.OctetIsShiftedIn(input, k);
      len := BitOr(len * 0x100, input[k] as nat);
      k := k + 1;
    }
    r := Ok(Wire.Length(len, 1 + count));
  }

  /** Read any single TLV. */
  function ReadTlvAny(input: bytes): (r: Result<Read>)
    ensures r.Ok? ==> 2 <= r.value.used <= |input| && |r.value.value| <= r.value.used - 2
    ensures r.Err? ==> r.error == Certificate
  {
    if |input| < 2 then Err(Certificate)
    else
      match Wire.LengthField(input[1..])
      case None => Err(Certificate)
      case Some(l) =>
        var start := 1 + l.used;
        var end := start + l.len;
        if |input| < end then Err(Certificate) else Ok(Read(input[0], input[start..end], end))
  }

  /** Read a TLV with a given tag. */
  function ReadTlv(input: bytes, expected: byte): (r: Result<Read>)
    ensures r.Ok? ==> ReadTlvAny(input) == r
    ensures r.Err? ==> r.error == Certificate
  {
    var t :- ReadTlvAny(input);
    if t.tag != expected then Err(Certificate) else Ok(t)
  }

  /** The reader the extensions use, which knows only short-form lengths. */
  function ReadTlvConsumed(buf: bytes): (r: Option<Read>)
    ensures r.Some? ==> 2 <= r.value.used <= |buf|
  {
    if |buf| < 2 || buf[1] > 0x7F || 2 + buf[1] as nat > |buf| then None
    else Some(Read(buf[0], buf[2..2 + buf[1] as nat], 2 + buf[1] as nat))
  }

  /** Write a TLV with a one-octet tag. */
  function DerTlv(tag: byte, value: bytes): bytes {
    [tag] + Wire.DerLength(|value|) + value
  }

  /** The three readers agree wherever more than one of them applies. */
  lemma ReadersAgree(input: bytes)
    ensures ReadTlvConsumed(input).Some? <==> ReadTlvAny(input).Ok? && input[1] <= 0x7F
    ensures ReadTlvConsumed(input).Some? ==> ReadTlvAny(input) == Ok(ReadTlvConsumed(input).value)
    ensures input != [] && input[0] % 0x20 != 0x1F ==>
              && (Wire.ReadTlv(input).Ok? <==> ReadTlvAny(input).Ok?)
              && (ReadTlvAny(input).Ok? ==>
                    var t := ReadTlvAny(input).value;
                    Wire.ReadTlv(input) == Ok(Wire.Tlv(t.tag as nat, t.value, t.used)))
  {
    if |input| >= 2 {
      assert input[1..][0] == input[1];
    }
  }

  /** Reading undoes writing, whatever follows, exactly up to two length octets. */
  lemma ReadTlvAnyUndoesDerTlv(tag: byte, value: bytes, rest: bytes)
    ensures |value| <= Wire.MAX_LENGTH ==>
              ReadTlvAny(DerTlv(tag, value) + rest) == Ok(Read(tag, value, |DerTlv(tag, value)|))
    ensures |value| > Wire.MAX_LENGTH ==>
              ReadTlvAny(DerTlv(tag, value) + rest).Ok? ==> ReadTlvAny(DerTlv(tag, value) + rest).value.value != value
  {
    var d := Wire.DerLength(|value|);
    var input := DerTlv(tag, value) + rest;
    assert input[1..] == d + (value + rest);
    Wire.LengthRoundTrip(|value|, value + rest);
    if |value| <= Wire.MAX_LENGTH {
      assert input[1 + |d|..1 + |d| + |value|] == value;
    } else {
      Wire.LengthTruncates(|value|, value + rest);
    }
  }

  /** `s` is one TLV: the tag, the length of the value in an accepted form, and the value. */
  ghost predicate IsTlv(s: bytes, tag: byte, value: bytes) {
    exists l :: IsTlvWith(s, l, tag, value)
  }

  ghost predicate IsTlvWith(s: bytes, l: bytes, tag: byte, value: bytes) {
    Wire.IsLength(l, |value|) && s == [tag] + l + value
  }

  /** What is read is one TLV at the front of the input, and everything else is rejected. */
  lemma ReadTlvAnyExactly(input: bytes, tag: byte, value: bytes, used: nat)
    ensures ReadTlvAny(input) == Ok(Read(tag, value, used)) <==> used <= |input| && IsTlv(input[..used], tag, value)
  {
    if ReadTlvAny(input) == Ok(Read(tag, value, used)) {
      var l := Wire.LengthField(input[1..]).value;
      Wire.LengthFieldExactly(input[1..], l.len, l.used);
      Wire.Regroup(input, 1, l.used, |value|);
      assert input[..1] == [tag];
      assert IsTlvWith(input[..used], input[1..][..l.used], tag, value);
    }
    if used <= |input| {
      forall l | IsTlvWith(input[..used], l, tag, value)
        ensures ReadTlvAny(input) == Ok(Read(tag, value, used))
      {
        Wire.Split(input, [tag], l, value);
        Wire.LengthFieldExactly(input[1..], |value|, |l|);
      }
    }
  }

  /** `s` begins with a TLV, and `rest` follows it. */
  ghost predicate Begins(s: bytes, tag: byte, value: bytes, rest: bytes) {
    exists t :: IsTlv(t, tag, value) && s == t + rest
  }

  lemma BeginsExactly(s: bytes, tag: byte, value: bytes, rest: bytes)
    ensures Begins(s, tag, value, rest) <==>
            && ReadTlvAny(s).Ok? && ReadTlvAny(s).value.tag == tag && ReadTlvAny(s).value.value == value
            && rest == s[ReadTlvAny(s).value.used..]
  {
    forall t | IsTlv(t, tag, value) && s == t + rest
      ensures ReadTlvAny(s) == Ok(Read(tag, value, |t|)) && rest == s[|t|..]
    {
      assert s[..|t|] == t;
      ReadTlvAnyExactly(s, tag, value, |t|);
    }
    if ReadTlvAny(s).Ok? {
      var r := ReadTlvAny(s).value;
      ReadTlvAnyExactly(s, r.tag, r.value, r.used);
      assert s == s[..r.used] + s[r.used..];
    }
  }

  /** The same for the short-form reader. */
  lemma ReadTlvConsumedUndoesDerTlv(tag: byte, value: bytes, rest: bytes)
    requires |value| <= 0x7F
    ensures ReadTlvConsumed(DerTlv(tag, value) + rest) == Some(Read(tag, value, 2 + |value|))
    ensures |DerTlv(tag, value)| == 2 + |value|
  {
    ReadTlvAnyUndoesDerTlv(tag, value, rest);
    ReadersAgree(DerTlv(tag, value) + rest);
    assert (DerTlv(tag, value) + rest)[1] == |value| as byte;
  }

  // ---------- sequences of TLVs ----------

  datatype Element = Element(tag: byte, value: bytes)

  /** The TLVs that follow one another in `s`, to its end. */
  function Elements(s: bytes): (r: Result<seq<Element>>)
    ensures r.Err? ==> r.error == Certificate
    decreases |s|
  {
    if s == [] then Ok([])
    else
      var t :- ReadTlvAny(s);
      var rest :- Elements(s[t.used..]);
      Ok([Element(t.tag, t.value)] + rest)
  }

  function Concat(parts: seq<bytes>): bytes {
    if parts == [] then [] else parts[0] + Concat(parts[1..])
  }

  lemma {:induction false} ConcatSplits(parts: seq<bytes>, k: nat)
    requires k <= |parts|
    ensures Concat(parts) == Concat(parts[..k]) + Concat(parts[k..])
  {
    if k > 0 {
      ConcatSplits(parts[1..], k - 1);
      assert parts[..k][1..] == parts[1..][..k - 1];
    }
  }

  lemma {:induction false} ConcatCovers(parts: seq<bytes>, k: nat)
    requires k < |parts|
    ensures |parts[k]| <= |Concat(parts)|
    ensures |Concat(parts[..k])| + |parts[k]| <= |Concat(parts)|
    ensures Concat(parts)[|Concat(parts[..k])|..][..|parts[k]|] == parts[k]
  {
    ConcatSplits(parts, k);
    assert Concat(parts[k..]) == parts[k] + Concat(parts[k..][1..]);
  }

  function Encoded(es: seq<Element>): (r: seq<bytes>)
    ensures |r| == |es|
  {
    seq(|es|, i requires 0 <= i < |es| => DerTlv(es[i].tag, es[i].value))
  }

  /** Parsing a printed list of TLVs gives the list. */
  lemma {:induction false} ElementsUndoPrinting(es: seq<Element>)
    requires forall i :: 0 <= i < |es| ==> |es[i].value| <= Wire.MAX_LENGTH
    ensures Elements(Concat(Encoded(es))) == Ok(es)
  {
    if es != [] {
      var first, rest := DerTlv(es[0].tag, es[0].value), Concat(Encoded(es[1..]));
      assert Encoded(es)[1..] == Encoded(es[1..]);
      assert Concat(Encoded(es)) == first + rest;
      ReadTlvAnyUndoesDerTlv(es[0].tag, es[0].value, rest);
      assert (first + rest)[|first|..] == rest;
      ElementsUndoPrinting(es[1..]);
      assert [Element(es[0].tag, es[0].value)] + es[1..] == es;
    }
  }

  /** `raws` are the octets of the elements `es`, one TLV each. */
  ghost predicate AreTlvsOf(raws: seq<bytes>, es: seq<Element>) {
    && |raws| == |es|
    && forall i :: 0 <= i < |raws| ==> IsTlv(raws[i], es[i].tag, es[i].value)
  }

  /** The octets of the TLVs that follow one another in `s`. */
  function RawTlvs(s: bytes): seq<bytes>
    requires Elements(s).Ok?
    decreases |s|
  {
    if s == [] then []
    else
      var used := ReadTlvAny(s).value.used;
      [s[..used]] + RawTlvs(s[used..])
  }

  /**
    A walk that ends has tiled its input: the TLVs it read, laid end to end, are the input. And every
    input that is TLVs laid end to end is walked to its end.
   */
  lemma ElementsTileInput(s: bytes, es: seq<Element>)
    ensures Elements(s) == Ok(es) <==> exists raws :: s == Concat(raws) && AreTlvsOf(raws, es)
  {
    if Elements(s).Ok? {
      RawTlvsCover(s);
      RawTlvsRead(s);
    }
    forall raws | s == Concat(raws) && AreTlvsOf(raws, es)
      ensures Elements(s) == Ok(es)
    {
      TilesAreWalked(raws, es);
    }
  }

  lemma {:induction false} TilesAreWalked(raws: seq<bytes>, es: seq<Element>)
    requires AreTlvsOf(raws, es)
    ensures Elements(Concat(raws)) == Ok(es)
  {
    if raws != [] {
      TilesAreWalked(raws[1..], es[1..]);
      assert IsTlv(raws[0], es[0].tag, es[0].value);
      BeginsExactly(Concat(raws), es[0].tag, es[0].value, Concat(raws[1..]));
      assert [es[0]] + es[1..] == es;
    }
  }

  lemma {:induction false} RawTlvsCover(s: bytes)
    requires Elements(s).Ok?
    ensures Concat(RawTlvs(s)) == s
    decreases |s|
  {
    if s != [] {
      var used := ReadTlvAny(s).value.used;
      RawTlvsCover(s[used..]);
      ConcatWithFirst(s[..used], RawTlvs(s[used..]));
      assert s == s[..used] + s[used..];
    }
  }

  lemma {:induction false} RawTlvsRead(s: bytes)
    requires Elements(s).Ok?
    ensures AreTlvsOf(RawTlvs(s), Elements(s).value)
    decreases |s|
  {
    if s != [] {
      var t := ReadTlvAny(s).value;
      RawTlvsRead(s[t.used..]);
      ReadTlvAnyExactly(s, t.tag, t.value, t.used);
      TlvsWithFirst(s[..t.used], Element(t.tag, t.value), RawTlvs(s[t.used..]), Elements(s[t.used..]).value);
    }
  }

  lemma ConcatWithFirst(first: bytes, rest: seq<bytes>)
    ensures Concat([first] + rest) == first + Concat(rest)
  {
    assert ([first] + rest)[1..] == rest;
  }

  lemma TlvsWithFirst(raw: bytes, e: Element, raws: seq<bytes>, es: seq<Element>)
    requires IsTlv(raw, e.tag, e.value) && AreTlvsOf(raws, es)
    ensures AreTlvsOf([raw] + raws, [e] + es)
  {
  }

  // ---------- the subject public key ----------

  const ID_EC_PUBLIC_KEY: bytes := [0x2A, 0x86, 0x48, 0xCE, 0x3D, 0x02, 0x01]

  /** The curve an `AlgorithmIdentifier` names. */
  function CurveFromAlgorithmIdentifier(alg: bytes): (r: Result<CurveKind>)
    ensures r.Err? ==> r.error == Certificate
  {
    var id :- ReadTlv(alg, 0x06);
    if id.value != ID_EC_PUBLIC_KEY then Err(Certificate)
    else
      var named :- ReadTlv(alg[id.used..], 0x06);
      if named.value == P256.Oid() then Ok(P256)
      else if named.value == BrainpoolP256r1.Oid() then Ok(BrainpoolP256r1)
      else Err(Certificate)
  }

  function PublicKeyFromBytes(p: Suite, curve: CurveKind, point: bytes): Result<PublicKey> {
    if p.IsPublicKey(PublicKey(curve, point)) then Ok(PublicKey(curve, point)) else Err(Malformed)
  }

  /** The key in a `SubjectPublicKeyInfo`. */
  function KeyFromSpki(p: Suite, spki: bytes): Result<PublicKey> {
    var alg :- ReadTlv(spki, 0x30);
    var curve :- CurveFromAlgorithmIdentifier(alg.value);
    var bits :- ReadTlv(spki[alg.used..], 0x03);
    if |bits.value| != PUBLIC_KEY_LEN + 1 || bits.value[0] != 0x00 then Err(Certificate)
    else PublicKeyFromBytes(p, curve, bits.value[1..])
  }

  /** The contents of the tbsCertificate. */
  function TbsOf(der: bytes): (r: Result<bytes>)
    ensures r.Err? ==> r.error == Certificate
  {
    var cert :- ReadTlv(der, 0x30);
    var tbs :- ReadTlv(cert.value, 0x30);
    Ok(tbs.value)
  }

  /** The position of `subjectPublicKeyInfo` among the elements of the tbsCertificate. */
  function SpkiIndex(es: seq<Element>): nat {
    if es != [] && es[0].tag == 0xA0 then 6 else 5
  }

  function SpkiKey(p: Suite, der: bytes): Result<PublicKey> {
    var tbs :- TbsOf(der);
    var es :- Elements(tbs);
    if |es| <= SpkiIndex(es) || es[SpkiIndex(es)].tag != 0x30 then Err(Certificate)
    else KeyFromSpki(p, es[SpkiIndex(es)].value)
  }

  /** A walk over `s` that has read `done` and is left with `rest`. */
  ghost predicate Walked(s: bytes, done: seq<Element>, rest: bytes) {
    Elements(s) == match Elements(rest) case Ok(es) => Ok(done + es) case Err(e) => Err(e)
  }

  lemma WalkStarts(s: bytes)
    ensures Walked(s, [], s)
  {
    if Elements(s).Ok? {
      assert [] + Elements(s).value == Elements(s).value;
    }
  }

  lemma WalkStep(s: bytes, done: seq<Element>, rest: bytes)
    requires Walked(s, done, rest) && rest != []
    ensures ReadTlvAny(rest).Ok? ==>
              var t := ReadTlvAny(rest).value; Walked(s, done + [Element(t.tag, t.value)], rest[t.used..])
    ensures ReadTlvAny(rest).Err? ==> Elements(s) == Err(Certificate)
  {
    if ReadTlvAny(rest).Ok? {
      var t := ReadTlvAny(rest).value;
      if Elements(rest[t.used..]).Ok? {
        var es := Elements(rest[t.used..]).value;
        assert done + ([Element(t.tag, t.value)] + es) == done + [Element(t.tag, t.value)] + es;
      }
    }
  }

  lemma WalkEnds(s: bytes, done: seq<Element>)
    requires Walked(s, done, [])
    ensures Elements(s) == Ok(done)
  {
    assert done + [] == done;
  }

  /** The walk by position: collect every element of the tbsCertificate, then pick one. */
  method ExtractSpkiPublicKey(p: Suite, der: bytes) returns (r: Result<PublicKey>)
    ensures r == SpkiKey(p, der)
  {
    var cert :- ReadTlv(der, 0x30);
    var tbs :- ReadTlv(cert.value, 0x30);
    var fields: seq<bytes> := [];
    var tags: seq<byte> := [];
    var rest := tbs.value;
    ghost var done: seq<Element> := [];
    WalkStarts(tbs.value);
    while rest != []
      invariant |tags| == |fields| == |done|
      invariant forall i :: 0 <= i < |done| ==> done[i] == Element(tags[i], fields[i])
      invariant Walked(tbs.value, done, rest)
      decreases |rest|
    {
      WalkStep(tbs.value, done, rest);
      var t :- ReadTlvAny(rest);
      rest := rest[t.used..];
      tags := tags + [t.tag];
      fields := fields + [t.value];
      done := done + [Element(t.tag, t.value)];
    }
    WalkEnds(tbs.value, done);
    var spkiIndex := if tags != [] && tags[0] == 0xA0 then 6 else 5;
    if |tags| <= spkiIndex || tags[spkiIndex] != 0x30 {
      return Err(Certificate);
    }
    r := KeyFromSpki(p, fields[spkiIndex]);
  }

  datatype ParsedCertificate = ParsedCertificate(der: bytes, publicKey: PublicKey)

  function FromDer(p: Suite, der: bytes): Result<ParsedCertificate> {
    if der == [] then Err(Certificate)
    else
      var key :- SpkiKey(p, der);
      Ok(ParsedCertificate(der, key))
  }

  // ---------- the curve by shape ----------

  /** The namedCurve OID of an element shaped like a `SubjectPublicKeyInfo` for an EC key. */
  function ShapedCurveOid(e: Element): Option<bytes> {
    if e.tag != 0x30 then None
    else
      match ReadTlvAny(e.value)
      case Err(_) => None
      case Ok(inner) =>
        if inner.tag != 0x30 then None
        else
          match ReadTlvAny(inner.value)
          case Err(_) => None
          case Ok(alg) =>
            if alg.tag != 0x06 || alg.value != ID_EC_PUBLIC_KEY then None
            else
              match ReadTlvAny(inner.value[alg.used..])
              case Err(_) => None
              case Ok(curve) => if curve.tag != 0x06 then None else Some(curve.value)
  }

  /** The OID of the first shaped element, if the walk reaches one. */
  function FirstShapedOid(s: bytes): Option<bytes>
    decreases |s|
  {
    if s == [] then None
    else
      match ReadTlvAny(s)
      case Err(_) => None
      case Ok(t) =>
        var oid := ShapedCurveOid(Element(t.tag, t.value));
        if oid.Some? then oid else FirstShapedOid(s[t.used..])
  }

  function NamedCurveOid(der: bytes): Option<bytes> {
    match ReadTlvAny(der)
    case Err(_) => None
    case Ok(cert) =>
      match ReadTlvAny(cert.value)
      case Err(_) => None
      case Ok(tbs) => FirstShapedOid(tbs.value)
  }

  /** The walk by shape, as the source nests it. */
  method CertificateNamedCurveOid(der: bytes) returns (r: Option<bytes>)
    ensures r == NamedCurveOid(der)
  {
    var cert := ReadTlvAny(der);
    if cert.Err? {
      return None;
    }
    var tbs := ReadTlvAny(cert.value.value);
    if tbs.Err? {
      return None;
    }
    var rest := tbs.value.value;
    while rest != []
      invariant FirstShapedOid(tbs.value.value) == FirstShapedOid(rest)
      decreases |rest|
    {
      var t := ReadTlvAny(rest);
      if t.Err? {
        return None;
      }
      rest := rest[t.value.used..];
      if t.value.tag != 0x30 {
        continue;
      }
      var inner := ReadTlvAny(t.value.value);
      if inner.Err? || inner.value.tag != 0x30 {
        continue;
      }
      var alg := ReadTlvAny(inner.value.value);
      if alg.Err? || alg.value.tag != 0x06 || alg.value.value != ID_EC_PUBLIC_KEY {
        continue;
      }
      var curve := ReadTlvAny(inner.value.value[alg.value.used..]);
      if curve.Err? || curve.value.tag != 0x06 {
        continue;
      }
      return Some(curve.value.value);
    }
    r := None;
  }

  /** The first shaped element of a list. */
  function FirstShaped(es: seq<Element>): Option<bytes> {
    if es == [] then None
    else if ShapedCurveOid(es[0]).Some? then ShapedCurveOid(es[0])
    else FirstShaped(es[1..])
  }

  lemma {:induction false} FirstShapedOidOfElements(s: bytes)
    requires Elements(s).Ok?
    ensures FirstShapedOid(s) == FirstShaped(Elements(s).value)
    decreases |s|
  {
    if s != [] {
      var t := ReadTlvAny(s).value;
      FirstShapedOidOfElements(s[t.used..]);
      assert Elements(s).value[1..] == Elements(s[t.used..]).value;
    }
  }

  lemma {:induction false} FirstShapedSkips(es: seq<Element>, k: nat)
    requires k < |es| && ShapedCurveOid(es[k]).Some?
    ensures FirstShaped(es) == if FirstShaped(es[..k]).Some? then FirstShaped(es[..k]) else ShapedCurveOid(es[k])
  {
    if k > 0 {
      FirstShapedSkips(es[1..], k - 1);
      assert es[..k][1..] == es[1..][..k - 1];
    }
  }

  /** An `SubjectPublicKeyInfo` whose key is accepted has the shape, with the curve's own OID. */
  lemma AcceptedSpkiIsShaped(p: Suite, spki: bytes)
    requires KeyFromSpki(p, spki).Ok?
    ensures ShapedCurveOid(Element(0x30, spki)) == Some(KeyFromSpki(p, spki).value.curve.Oid())
  {
  }

  /**
    On every accepted certificate, the reader by shape answers with the first element of the
    tbsCertificate shaped like an EC key. It agrees with the reader by position exactly when no
    such element before the SPKI names another curve.
   */
  lemma CurveReadersAgree(p: Suite, der: bytes)
    requires FromDer(p, der).Ok?
    ensures var es := Elements(TbsOf(der).value).value;
            var oid := FromDer(p, der).value.publicKey.curve.Oid();
            var before := FirstShaped(es[..SpkiIndex(es)]);
            && NamedCurveOid(der) == (if before.Some? then before else Some(oid))
            && (NamedCurveOid(der) == Some(oid) <==> before.None? || before == Some(oid))
  {
    var tbs := TbsOf(der).value;
    var es := Elements(tbs).value;
    FirstShapedOidOfElements(tbs);
    AcceptedSpkiIsShaped(p, es[SpkiIndex(es)].value);
    FirstShapedSkips(es, SpkiIndex(es));
  }

  /** No SEQUENCE before the SPKI begins with a nested SEQUENCE: a sufficient, visible condition. */
  lemma {:induction false} PlainElementsAreUnshaped(es: seq<Element>)
    requires forall i :: 0 <= i < |es| && es[i].tag == 0x30 ==>
               ReadTlvAny(es[i].value).Ok? ==> ReadTlvAny(es[i].value).value.tag != 0x30
    ensures FirstShaped(es).None?
  {
    if es != [] {
      PlainElementsAreUnshaped(es[1..]);
    }
  }

  /** On accepted certificates of that plain form the two readers agree. */
  lemma CurveReadersAgreeOnPlainCertificates(p: Suite, der: bytes)
    requires FromDer(p, der).Ok?
    requires var es := Elements(TbsOf(der).value).value;
             forall i :: 0 <= i < SpkiIndex(es) && es[i].tag == 0x30 ==>
               ReadTlvAny(es[i].value).Ok? ==> ReadTlvAny(es[i].value).value.tag != 0x30
    ensures NamedCurveOid(der) == Some(FromDer(p, der).value.publicKey.curve.Oid())
  {
    var es := Elements(TbsOf(der).value).value;
    CurveReadersAgree(p, der);
    PlainElementsAreUnshaped(es[..SpkiIndex(es)]);
  }

  // ---------- the signed bytes and the signature ----------

  datatype Signed = Signed(tbs: bytes, signature: bytes)

  /** The octets the tbsCertificate TLV takes at the front of a certificate's contents, and the signature. */
  datatype BodyParts = BodyParts(tbsUsed: nat, signature: bytes)

  function SplitBody(body: bytes): (r: Result<BodyParts>)
    ensures r.Err? ==> r.error == Certificate
    ensures r.Ok? ==> ReadTlv(body, 0x30).Ok? && r.value.tbsUsed == ReadTlv(body, 0x30).value.used <= |body|
  {
    var tbs :- ReadTlv(body, 0x30);
    var afterTbs := body[tbs.used..];
    var alg :- ReadTlv(afterTbs, 0x30);
    var sig :- ReadTlv(afterTbs[alg.used..], 0x03);
    if sig.value == [] || sig.value[0] != 0x00 then Err(Certificate)
    else Ok(BodyParts(tbs.used, sig.value[1..]))
  }

  function TbsAndSignature(der: bytes): (r: Result<Signed>)
    ensures r.Err? ==> r.error == Certificate
  {
    var cert :- ReadTlv(der, 0x30);
    var parts :- SplitBody(cert.value);
    Ok(Signed(TbsSlice(der, |cert.value|, parts.tbsUsed), parts.signature))
  }

  /** Where the tbsCertificate is taken to be: `used` octets, `bodyLength` before the end of the input. */
  function TbsSlice(der: bytes, bodyLength: nat, used: nat): bytes
    requires used <= bodyLength <= |der|
  {
    var tbsStart := |der| - bodyLength;
    der[tbsStart..tbsStart + used]
  }

  /** The tbsCertificate TLV of the certificate that was read. */
  function OwnTbs(der: bytes): (r: Result<bytes>)
    ensures r.Ok? <==> TbsOf(der).Ok?
  {
    var cert :- ReadTlv(der, 0x30);
    var tbs :- ReadTlv(cert.value, 0x30);
    Ok(cert.value[..tbs.used])
  }

  /** The outer SEQUENCE ends where the input ends. */
  predicate NothingFollows(der: bytes) {
    ReadTlvAny(der).Ok? && ReadTlvAny(der).value.used == |der|
  }

  /**
    The signed bytes are found by counting from the end of the input, so they begin as many octets
    after the tbsCertificate as follow the certificate: at the same place exactly when nothing does.
   */
  lemma SignedBytesAreShiftedByTrailing(der: bytes, cert: Read, tbs: Read, signed: Signed)
    requires TbsAndSignature(der) == Ok(signed)
    requires ReadTlv(der, 0x30) == Ok(cert) && ReadTlv(cert.value, 0x30) == Ok(tbs)
    ensures var own := cert.used - |cert.value|;
            var taken := own + (|der| - cert.used);
            && OwnTbs(der) == Ok(der[own..own + tbs.used])
            && signed.tbs == der[taken..taken + tbs.used]
            && (taken == own <==> NothingFollows(der))
  {
    OwnTbsLies(der, cert, tbs);
    TakenTbsLies(der, cert, tbs, signed);
  }

  lemma OwnTbsLies(der: bytes, cert: Read, tbs: Read)
    requires ReadTlv(der, 0x30) == Ok(cert) && ReadTlv(cert.value, 0x30) == Ok(tbs)
    ensures |cert.value| <= cert.used <= |der| && tbs.used <= |cert.value|
    ensures var own := cert.used - |cert.value|; OwnTbs(der) == Ok(der[own..own + tbs.used])
  {
    TbsOfBody(der, cert.value, cert.used, tbs.value, tbs.used);
    ValueIsTail(der);
    PrefixOfSlice(der, cert.used - |cert.value|, cert.used, tbs.used);
  }

  lemma TakenTbsLies(der: bytes, cert: Read, tbs: Read, signed: Signed)
    requires TbsAndSignature(der) == Ok(signed)
    requires ReadTlv(der, 0x30) == Ok(cert) && ReadTlv(cert.value, 0x30) == Ok(tbs)
    ensures |cert.value| <= |der| && tbs.used <= |cert.value|
    ensures signed.tbs == TbsSlice(der, |cert.value|, tbs.used)
  {
  }

  lemma PrefixOfSlice(s: bytes, from: nat, end: nat, n: nat)
    requires from + n <= end <= |s|
    ensures s[from..end][..n] == s[from..from + n]
  {
  }

  lemma TbsOfBody(der: bytes, body: bytes, used: nat, tbs: bytes, tbsUsed: nat)
    requires ReadTlvAny(der) == Ok(Read(0x30, body, used)) && ReadTlvAny(body) == Ok(Read(0x30, tbs, tbsUsed))
    ensures tbsUsed <= |body| <= used <= |der|
    ensures TbsOf(der) == Ok(tbs) && OwnTbs(der) == Ok(body[..tbsUsed])
  {
  }

  /** A TLV's value is the end of the octets it takes. */
  lemma ValueIsTail(input: bytes)
    requires ReadTlvAny(input).Ok?
    ensures var t := ReadTlvAny(input).value; t.value == input[t.used - |t.value|..t.used]
  {
  }

  /** What is taken from an input that reads as a certificate with these contents. */
  lemma TbsAndSignatureOfBody(der: bytes, body: bytes, used: nat)
    requires ReadTlvAny(der) == Ok(Read(0x30, body, used)) && |body| <= |der|
    requires SplitBody(body).Ok?
    ensures TbsAndSignature(der)
            == Ok(Signed(TbsSlice(der, |body|, SplitBody(body).value.tbsUsed), SplitBody(body).value.signature))
  {
  }

  /** The contents of a certificate printed as three TLVs. */
  function CertificateBody(tbs: bytes, alg: bytes, signature: bytes): bytes {
    DerTlv(0x30, tbs) + DerTlv(0x30, alg) + DerTlv(0x03, [0x00] + signature)
  }

  lemma SplitBodyUndoesPrinting(tbs: bytes, alg: bytes, signature: bytes)
    requires |CertificateBody(tbs, alg, signature)| <= Wire.MAX_LENGTH
    ensures SplitBody(CertificateBody(tbs, alg, signature)) == Ok(BodyParts(|DerTlv(0x30, tbs)|, signature))
  {
    var t, a, g := DerTlv(0x30, tbs), DerTlv(0x30, alg), DerTlv(0x03, [0x00] + signature);
    var body := CertificateBody(tbs, alg, signature);
    assert body == t + (a + g);
    ReadTlvAnyUndoesDerTlv(0x30, tbs, a + g);
    assert body[|t|..] == a + g;
    ReadTlvAnyUndoesDerTlv(0x30, alg, g);
    assert (a + g)[|a|..] == g == g + [];
    ReadTlvAnyUndoesDerTlv(0x03, [0x00] + signature, []);
    assert ([0x00] + signature)[1..] == signature;
  }

  lemma BodyStartsWithTbs(tbs: bytes, alg: bytes, signature: bytes)
    requires |CertificateBody(tbs, alg, signature)| <= Wire.MAX_LENGTH
    ensures |DerTlv(0x30, tbs)| <= |CertificateBody(tbs, alg, signature)|
    ensures ReadTlvAny(CertificateBody(tbs, alg, signature)) == Ok(Read(0x30, tbs, |DerTlv(0x30, tbs)|))
    ensures CertificateBody(tbs, alg, signature)[..|DerTlv(0x30, tbs)|] == DerTlv(0x30, tbs)
  {
    var rest := DerTlv(0x30, alg) + DerTlv(0x03, [0x00] + signature);
    ReadTlvAnyUndoesDerTlv(0x30, tbs, rest);
    assert CertificateBody(tbs, alg, signature) == DerTlv(0x30, tbs) + rest;
  }

  /** An input that reads as a printed certificate, whatever follows it there, as the other readers see it. */
  lemma PrintedReadsBack(der: bytes, used: nat, tbs: bytes, alg: bytes, signature: bytes)
    requires |CertificateBody(tbs, alg, signature)| <= Wire.MAX_LENGTH
    requires ReadTlvAny(der) == Ok(Read(0x30, CertificateBody(tbs, alg, signature), used))
    ensures TbsOf(der) == Ok(tbs) && OwnTbs(der) == Ok(DerTlv(0x30, tbs))
    ensures var body := CertificateBody(tbs, alg, signature);
            && |DerTlv(0x30, tbs)| <= |body| <= |der|
            && TbsAndSignature(der) == Ok(Signed(TbsSlice(der, |body|, |DerTlv(0x30, tbs)|), signature))
  {
    var body := CertificateBody(tbs, alg, signature);
    BodyStartsWithTbs(tbs, alg, signature);
    TbsOfBody(der, body, used, tbs, |DerTlv(0x30, tbs)|);
    SplitBodyUndoesPrinting(tbs, alg, signature);
    TbsAndSignatureOfBody(der, body, used);
  }

  /** Where a slice counted from the end of a TLV and what follows it lies. */
  lemma SliceOfTlvAndRest(body: bytes, rest: bytes, n: nat)
    requires n <= |body|
    ensures var der := DerTlv(0x30, body) + rest;
            && |body| <= |der|
            && (rest == [] ==> TbsSlice(der, |body|, n) == body[..n])
            && (|rest| == |body| ==> TbsSlice(der, |body|, n) == rest[..n])
            && (|rest| == 1 && n >= 1 && |body| > 1 ==> TbsSlice(der, |body|, n)[0] == body[1])
  {
    var header := [0x30] + Wire.DerLength(|body|);
    var der := DerTlv(0x30, body) + rest;
    assert DerTlv(0x30, body) == header + body;
    assert header + body + rest == header + (body + rest);
    EndOfInput(header, body, rest, n);
    if rest == [] {
      assert body + rest == body;
    }
  }

  lemma EndOfInput(front: bytes, body: bytes, rest: bytes, n: nat)
    requires n <= |body|
    ensures TbsSlice(front + (body + rest), |body|, n) == (body + rest)[|rest|..|rest| + n]
  {
    var s := front + (body + rest);
    assert s[|front|..] == body + rest;
    assert s[|front| + |rest|..|front| + |rest| + n] == s[|front|..][|rest|..|rest| + n];
  }

  /** With one octet after the certificate, the slice begins at the tbsCertificate's length, not at its tag. */
  lemma OctetAfterMovesSlice(tbs: bytes, alg: bytes, signature: bytes, octet: byte)
    requires |CertificateBody(tbs, alg, signature)| <= Wire.MAX_LENGTH && Wire.DerLength(|tbs|)[0] != 0x30
    ensures var body := CertificateBody(tbs, alg, signature);
            var der := DerTlv(0x30, body) + [octet];
            && |DerTlv(0x30, tbs)| <= |body| <= |der|
            && TbsSlice(der, |body|, |DerTlv(0x30, tbs)|) != DerTlv(0x30, tbs)
  {
    var body, tlv := CertificateBody(tbs, alg, signature), DerTlv(0x30, tbs);
    BodyStartsWithTbs(tbs, alg, signature);
    SliceOfTlvAndRest(body, [octet], |tlv|);
    assert body[1] == body[..|tlv|][1] == tlv[1];
  }

  function VerifySignedByKey(p: Suite, der: bytes, key: PublicKey): Result<()> {
    var s :- TbsAndSignature(der);
    if p.verifyDer(key, s.tbs, s.signature) then Ok(()) else Err(VerificationFailed)
  }

  /** Where nothing follows the certificate, verification is verification of its own tbsCertificate. */
  lemma VerificationCoversOwnTbs(p: Suite, der: bytes, key: PublicKey)
    requires NothingFollows(der) && TbsAndSignature(der).Ok?
    ensures OwnTbs(der) == Ok(TbsAndSignature(der).value.tbs)
    ensures VerifySignedByKey(p, der, key).Ok? <==>
            p.verifyDer(key, OwnTbs(der).value, TbsAndSignature(der).value.signature)
  {
    SignedIsOwnTbs(der);
  }

  lemma SignedIsOwnTbs(der: bytes)
    requires NothingFollows(der) && TbsAndSignature(der).Ok?
    ensures OwnTbs(der) == Ok(TbsAndSignature(der).value.tbs)
  {
    var cert := ReadTlv(der, 0x30).value;
    SignedBytesAreShiftedByTrailing(der, cert, ReadTlv(cert.value, 0x30).value, TbsAndSignature(der).value);
  }

  /**
    That condition cannot be dropped: with a TLV of the tbsCertificate's length after a certificate
    as long again as its contents, it is that TLV which counts as signed.
   */
  lemma FollowingTlvCountsAsSigned(own: bytes, following: bytes, alg: bytes, signature: bytes)
    requires |own| == |following| && |CertificateBody(own, alg, signature)| <= Wire.MAX_LENGTH
    ensures var der := WithFollowing(own, following, alg, signature);
            && TbsOf(der) == Ok(own) && OwnTbs(der) == Ok(DerTlv(0x30, own))
            && TbsAndSignature(der) == Ok(Signed(DerTlv(0x30, following), signature))
  {
    var body := CertificateBody(own, alg, signature);
    var rest := FollowingOctets(following, |body|);
    ReadTlvAnyUndoesDerTlv(0x30, body, rest);
    BodyStartsWithTbs(own, alg, signature);
    PrintedReadsBack(DerTlv(0x30, body) + rest, |DerTlv(0x30, body)|, own, alg, signature);
    SliceOfTlvAndRest(body, rest, |DerTlv(0x30, own)|);
    assert rest[..|DerTlv(0x30, own)|] == DerTlv(0x30, following);
  }

  /** A TLV, filled up with zeroes to a length. */
  function FollowingOctets(value: bytes, length: nat): bytes {
    var tlv := DerTlv(0x30, value);
    tlv + Zeros(if |tlv| <= length then length - |tlv| else 0)
  }

  /** A printed certificate, and after it another TLV, filled up to the length of the certificate's contents. */
  function WithFollowing(own: bytes, following: bytes, alg: bytes, signature: bytes): bytes {
    var body := CertificateBody(own, alg, signature);
    DerTlv(0x30, body) + FollowingOctets(following, |body|)
  }
}
