/**
  Reading certificate extensions (sections 4.2.1.1, 4.2.1.4 and 4.2.1.6 of RFC 5280) by searching
  the DER for the extension's OID.
 */
module X509Extensions {
  import opened Bytes
  import opened X509
  import Wire

  /** Extension OIDs with their `06 03` headers, as they are searched for. */
  const OID_SUBJECT_ALT_NAME: bytes := [0x06, 0x03, 0x55, 0x1D, 0x11]
  const OID_CERTIFICATE_POLICIES: bytes := [0x06, 0x03, 0x55, 0x1D, 0x20]
  const OID_AUTHORITY_KEY_IDENTIFIER: bytes := [0x06, 0x03, 0x55, 0x1D, 0x23]

  // ---------- the search ----------

  predicate OccursAt(s: bytes, part: bytes, i: nat) {
    i + |part| <= |s| && s[i..i + |part|] == part
  }

  /** What the search makes of one position: go on, give up, or return a value. */
  datatype Decision = Skip | GiveUp | Found(value: bytes)

  function DecisionAt(der: bytes, oid: bytes, i: nat): Decision
    requires i + |oid| < |der|
  {
    if !OccursAt(der, oid, i) then Skip
    else
      var j := i + |oid|;
      if der[j] != 0x01 then ValueAt(der, j)
      else if |der| <= j + 1 || der[j + 1] > 0x7F then GiveUp
      else ValueAt(der, j + 2 + der[j + 1] as nat)
  }

  /** What is read where the extnValue OCTET STRING should begin. */
  function ValueAt(der: bytes, j: nat): Decision {
    if |der| <= j then GiveUp
    else if der[j] != 0x04 then Skip
    else if |der| <= j + 1 || der[j + 1] > 0x7F then GiveUp
    else if |der| < j + 2 + der[j + 1] as nat then Skip
    else Found(der[j + 2..j + 2 + der[j + 1] as nat])
  }

  /** The outcome of a search from position `i` on. */
  function SearchFrom(der: bytes, oid: bytes, i: nat): Option<bytes>
    decreases |der| - i
  {
    if |der| <= i + |oid| then None
    else
      match DecisionAt(der, oid, i)
      case Skip => SearchFrom(der, oid, i + 1)
      case GiveUp => None
      case Found(v) => Some(v)
  }

  /** The body of the source's loop: what it does with position `i`. */
  method Decide(der: bytes, oid: bytes, i: nat) returns (d: Decision)
    requires i + |oid| < |der|
    ensures d == DecisionAt(der, oid, i)
  {
    if der[i..i + |oid|] != oid {
      return Skip;
    }
    var j := i + |oid|;
    if der[j] == 0x01 {
      if |der| <= j + 1 {
        return GiveUp;
      }
      var len := der[j + 1] as nat;
      if len > 0x7F {
        return GiveUp;
      }
      j := j + 2 + len;
    }
    if |der| <= j {
      return GiveUp;
    }
    if der[j] != 0x04 {
      return Skip;
    }
    if |der| <= j + 1 {
      return GiveUp;
    }
    var len := der[j + 1] as nat;
    if len > 0x7F {
      return GiveUp;
    }
    var start := j + 2;
    var end := start + len;
    if end <= |der| {
      return Found(der[start..end]);
    }
    d := Skip;
  }

  method ExtensionValue(der: bytes, oid: bytes) returns (r: Option<bytes>)
    ensures r == SearchFrom(der, oid, 0)
  {
    var i := 0;
    while i + |oid| < |der|
      invariant SearchFrom(der, oid, 0) == SearchFrom(der, oid, i)
      decreases |der| - i
    {
      var d := Decide(der, oid, i);
      match d {
        case Skip => i := i + 1;
        case GiveUp => return None;
        case Found(value) => return Some(value);
      }
    }
    r := None;
  }

  /** The search stops at position `i`, with a value or without. */
  predicate DecidesAt(der: bytes, oid: bytes, i: nat) {
    i + |oid| < |der| && DecisionAt(der, oid, i) != Skip
  }

  /** Position `k` is the first that is not skipped. */
  ghost predicate IsFirstDecision(der: bytes, oid: bytes, k: nat) {
    DecidesAt(der, oid, k) && forall i: nat :: i < k ==> !DecidesAt(der, oid, i)
  }

  function Answer(d: Decision): Option<bytes> {
    if d.Found? then Some(d.value) else None
  }

  /** The search answers with the first decision, wherever in the certificate it lies. */
  lemma {:induction false} SearchFindsFirstDecision(der: bytes, oid: bytes, i: nat, k: nat)
    requires IsFirstDecision(der, oid, k) && i <= k
    ensures SearchFrom(der, oid, i) == Answer(DecisionAt(der, oid, k))
    decreases k - i
  {
    if i < k {
      assert !DecidesAt(der, oid, i);
      SearchFindsFirstDecision(der, oid, i + 1, k);
    }
  }

  /** It finds nothing where no position decides. */
  lemma {:induction false} SearchFindsNothing(der: bytes, oid: bytes, i: nat)
    requires forall k: nat :: i <= k ==> !DecidesAt(der, oid, k)
    ensures SearchFrom(der, oid, i).None?
    decreases |der| - i
  {
    if i + |oid| < |der| {
      assert !DecidesAt(der, oid, i);
      SearchFindsNothing(der, oid, i + 1);
    }
  }

  /** Where some position decides, one at or before it is the first. */
  lemma FirstDecisionExists(der: bytes, oid: bytes, i: nat) returns (k: nat)
    requires DecidesAt(der, oid, i)
    ensures k <= i && IsFirstDecision(der, oid, k)
  {
    k := 0;
    while !DecidesAt(der, oid, k)
      invariant k <= i
      invariant forall j: nat :: j < k ==> !DecidesAt(der, oid, j)
      decreases i - k
    {
      k := k + 1;
    }
  }

  /** The octets of a `critical` flag, of whatever contents, or of none. */
  function FlagOctets(flag: Option<bytes>): bytes {
    if flag.Some? then DerTlv(0x01, flag.value) else []
  }

  /** An extension as it is written: the OID, a `critical` flag or none, and an OCTET STRING. */
  function Written(oid: bytes, flag: Option<bytes>, value: bytes): bytes {
    oid + FlagOctets(flag) + DerTlv(0x04, value)
  }

  /** The extension is at position `i`, with short-form lengths. */
  predicate IsWrittenAt(der: bytes, oid: bytes, i: nat, flag: Option<bytes>, value: bytes) {
    && (flag.Some? ==> |flag.value| <= 0x7F)
    && |value| <= 0x7F
    && OccursAt(der, Written(oid, flag, value), i)
  }

  /** A position yields a value exactly when an extension with that value is written there. */
  lemma FoundIsAWrittenExtension(der: bytes, oid: bytes, i: nat, value: bytes)
    requires i + |oid| < |der|
    ensures DecisionAt(der, oid, i) == Found(value) <==> exists flag :: IsWrittenAt(der, oid, i, flag, value)
  {
    if DecisionAt(der, oid, i) == Found(value) {
      var flag := FoundIsWritten(der, oid, i, value);
    }
    forall flag | IsWrittenAt(der, oid, i, flag, value)
      ensures DecisionAt(der, oid, i) == Found(value)
    {
      DecisionAtExtension(der, oid, i, flag, value);
    }
  }

  lemma FoundIsWritten(der: bytes, oid: bytes, i: nat, value: bytes) returns (flag: Option<bytes>)
    requires i + |oid| < |der| && DecisionAt(der, oid, i) == Found(value)
    ensures IsWrittenAt(der, oid, i, flag, value)
  {
    var j := i + |oid|;
    if der[j] == 0x01 {
      var len := der[j + 1] as nat;
      var content := der[j + 2..j + 2 + len];
      flag := Some(content);
      ShortTlvOccurs(der, j, 0x01, content);
      ShortTlvOccurs(der, j + 2 + len, 0x04, value);
      OccurrencesJoin(der, i, oid, FlagOctets(flag));
      OccurrencesJoin(der, i, oid + FlagOctets(flag), DerTlv(0x04, value));
    } else {
      flag := None;
      ShortTlvOccurs(der, j, 0x04, value);
      assert oid + [] == oid;
      OccurrencesJoin(der, i, oid, DerTlv(0x04, value));
    }
  }

  lemma OccurrencesJoin(s: bytes, i: nat, a: bytes, b: bytes)
    requires OccursAt(s, a, i) && OccursAt(s, b, i + |a|)
    ensures OccursAt(s, a + b, i)
  {
    assert s[i..i + |a| + |b|] == s[i..i + |a|] + s[i + |a|..i + |a| + |b|];
  }

  lemma ShortTlvOccurs(s: bytes, j: nat, tag: byte, value: bytes)
    requires |value| <= 0x7F && j + 2 + |value| <= |s|
    requires s[j] == tag && s[j + 1] == |value| as byte && s[j + 2..j + 2 + |value|] == value
    ensures OccursAt(s, DerTlv(tag, value), j)
  {
    assert DerTlv(tag, value) == [tag, |value| as byte] + value;
    assert s[j..j + 2 + |value|] == [s[j], s[j + 1]] + s[j + 2..j + 2 + |value|];
  }

  /**
    The whole search, without its steps: it returns a value exactly when the first position that
    decides holds an extension with that value.
   */
  lemma SearchReturnsExactly(der: bytes, oid: bytes, value: bytes)
    ensures SearchFrom(der, oid, 0) == Some(value) <==>
            exists k: nat, flag :: IsFirstDecision(der, oid, k) && IsWrittenAt(der, oid, k, flag, value)
  {
    if i: nat :| DecidesAt(der, oid, i) {
      var k := FirstDecisionExists(der, oid, i);
      SearchFindsFirstDecision(der, oid, 0, k);
      FoundIsAWrittenExtension(der, oid, k, value);
      forall k': nat | IsFirstDecision(der, oid, k')
        ensures k' == k
      {
        assert DecidesAt(der, oid, k) && DecidesAt(der, oid, k');
      }
    } else {
      SearchFindsNothing(der, oid, 0);
    }
  }

  /**
    Where an extension is written, with a short `critical` flag or none, and no earlier position
    decides, the search returns its value exactly when that has a short-form length, and gives up
    otherwise.
   */
  lemma SearchReadsFirstExtension(der: bytes, oid: bytes, k: nat, flag: Option<bytes>, value: bytes)
    requires OccursAt(der, Written(oid, flag, value), k) && (flag.Some? ==> |flag.value| <= 0x7F)
    requires forall i: nat :: i < k ==> !DecidesAt(der, oid, i)
    ensures IsFirstDecision(der, oid, k)
    ensures SearchFrom(der, oid, 0) == (if |value| <= 0x7F then Some(value) else None)
  {
    DecisionAtExtension(der, oid, k, flag, value);
    SearchFindsFirstDecision(der, oid, 0, k);
  }

  lemma DecisionAtExtension(der: bytes, oid: bytes, k: nat, flag: Option<bytes>, value: bytes)
    requires OccursAt(der, Written(oid, flag, value), k) && (flag.Some? ==> |flag.value| <= 0x7F)
    ensures k + |oid| < |der|
    ensures DecisionAt(der, oid, k) == if |value| <= 0x7F then Found(value) else GiveUp
  {
    PartsOccur(der, k, oid, FlagOctets(flag), DerTlv(0x04, value));
    DecisionAtParts(der, oid, k, flag, value);
  }

  lemma DecisionAtParts(der: bytes, oid: bytes, k: nat, flag: Option<bytes>, value: bytes)
    requires flag.Some? ==> |flag.value| <= 0x7F
    requires OccursAt(der, oid, k) && OccursAt(der, FlagOctets(flag), k + |oid|)
    requires OccursAt(der, DerTlv(0x04, value), k + |oid| + |FlagOctets(flag)|)
    ensures k + |oid| < |der|
    ensures DecisionAt(der, oid, k) == if |value| <= 0x7F then Found(value) else GiveUp
  {
    var end := k + |oid| + |FlagOctets(flag)|;
    FirstOctets(der, end, 0x04, value);
    OctetStringAt(der, end, value);
    FlagIsPassed(der, oid, k, flag);
  }

  /** A `critical` flag is stepped over, whatever it says. */
  lemma FlagIsPassed(der: bytes, oid: bytes, k: nat, flag: Option<bytes>)
    requires flag.Some? ==> |flag.value| <= 0x7F
    requires OccursAt(der, oid, k) && OccursAt(der, FlagOctets(flag), k + |oid|)
    requires var end := k + |oid| + |FlagOctets(flag)|; end < |der| && der[end] == 0x04
    ensures k + |oid| < |der|
    ensures DecisionAt(der, oid, k) == ValueAt(der, k + |oid| + |FlagOctets(flag)|)
  {
    if flag.Some? {
      FirstOctets(der, k + |oid|, 0x01, flag.value);
      assert |FlagOctets(flag)| == 2 + |flag.value|;
    }
  }

  lemma PartsOccur(s: bytes, i: nat, a: bytes, b: bytes, c: bytes)
    requires OccursAt(s, a + b + c, i)
    ensures OccursAt(s, a, i) && OccursAt(s, b, i + |a|) && OccursAt(s, c, i + |a| + |b|)
  {
    var whole := a + b + c;
    assert OccursAt(whole, a, 0) && OccursAt(whole, b, |a|) && OccursAt(whole, c, |a| + |b|);
    OccursWithin(s, i, whole, 0, a);
    OccursWithin(s, i, whole, |a|, b);
    OccursWithin(s, i, whole, |a| + |b|, c);
  }

  /** A part of something that occurs occurs where it should. */
  lemma OccursWithin(s: bytes, i: nat, whole: bytes, j: nat, part: bytes)
    requires OccursAt(s, whole, i) && OccursAt(whole, part, j)
    ensures OccursAt(s, part, i + j)
  {
    SliceOfSlice(s, i, |whole|, j, |part|);
  }

  lemma SliceOfSlice(s: bytes, i: nat, m: nat, j: nat, n: nat)
    requires i + m <= |s| && j + n <= m
    ensures s[i..i + m][j..j + n] == s[i + j..i + j + n]
  {
    var a, b := s[i..i + m][j..j + n], s[i + j..i + j + n];
    assert forall k :: 0 <= k < n ==> a[k] == s[i + j + k];
    assert a == b;
  }

  lemma FirstOctets(s: bytes, j: nat, tag: byte, value: bytes)
    requires OccursAt(s, DerTlv(tag, value), j)
    ensures j + 2 <= |s| && s[j] == tag && s[j + 1] == Wire.DerLength(|value|)[0]
  {
    var t := DerTlv(tag, value);
    assert t[1] == Wire.DerLength(|value|)[0];
    assert s[j] == s[j..j + |t|][0] && s[j + 1] == s[j..j + |t|][1];
  }

  lemma OctetStringAt(der: bytes, j: nat, value: bytes)
    requires OccursAt(der, DerTlv(0x04, value), j)
    ensures ValueAt(der, j) == if |value| <= 0x7F then Found(value) else GiveUp
  {
    FirstOctets(der, j, 0x04, value);
    if |value| <= 0x7F {
      var t := DerTlv(0x04, value);
      assert t == [0x04, |value| as byte] + value;
      assert der[j + 2..j + 2 + |value|] == der[j..j + |t|][2..] == value;
    }
  }

  // ---------- the extensions read ----------

  function UnwrapSequence(buf: bytes): Option<bytes> {
    var t :- ReadTlvConsumed(buf);
    if t.tag == 0x30 then Some(t.value) else None
  }

  /**
    The source's comment asks for a SEQUENCE that occupies the whole buffer. What is unwrapped does
    so exactly when the buffer ends with it; octets after it are not looked at.
   */
  lemma UnwrappedIsWholeBuffer(buf: bytes, value: bytes)
    requires UnwrapSequence(buf) == Some(value)
    ensures DerTlv(0x30, value) <= buf
    ensures DerTlv(0x30, value) == buf <==> |buf| == 2 + buf[1] as nat
  {
    ShortTlvOccurs(buf, 0, 0x30, value);
    assert buf[0..|DerTlv(0x30, value)|] == buf[..|DerTlv(0x30, value)|] == DerTlv(0x30, value);
    assert buf[..|buf|] == buf;
  }

  /** A buffer with an octet after its SEQUENCE is unwrapped all the same. */
  lemma UnwrapIgnoresTrailing()
    ensures UnwrapSequence([0x30, 0x00, 0x00]) == Some([]) && DerTlv(0x30, []) != [0x30, 0x00, 0x00]
  {
    ReadTlvConsumedUndoesDerTlv(0x30, [], [0x00]);
    assert DerTlv(0x30, []) + [0x00] == [0x30, 0x00, 0x00];
  }

  /** The content of the first GeneralName of the subjectAltName. */
  function SubjectAltName(der: bytes): Option<bytes> {
    var ext :- SearchFrom(der, OID_SUBJECT_ALT_NAME, 0);
    var inner :- UnwrapSequence(ext);
    if inner == [] then None
    else
      var name :- ReadTlvConsumed(inner);
      Some(name.value)
  }

  /** The first `[0]` member of an AuthorityKeyIdentifier. */
  function KeyIdentifierIn(members: bytes): Option<bytes>
    decreases |members|
  {
    if members == [] then None
    else
      var t :- ReadTlvConsumed(members);
      if t.tag == 0x80 then Some(t.value) else KeyIdentifierIn(members[t.used..])
  }

  function KeyIdentifier(der: bytes): Option<bytes> {
    var ext :- SearchFrom(der, OID_AUTHORITY_KEY_IDENTIFIER, 0);
    var members :- UnwrapSequence(ext);
    KeyIdentifierIn(members)
  }

  method AuthorityKeyIdentifier(der: bytes) returns (r: Option<bytes>)
    ensures r == KeyIdentifier(der)
  {
    var ext :- ExtensionValue(der, OID_AUTHORITY_KEY_IDENTIFIER);
    var members :- UnwrapSequence(ext);
    var rest := members;
    while rest != []
      invariant KeyIdentifierIn(members) == KeyIdentifierIn(rest)
      decreases |rest|
    {
      var t :- ReadTlvConsumed(rest);
      if t.tag == 0x80 {
        return Some(t.value);
      }
      rest := rest[t.used..];
    }
    r := None;
  }

  /** The OID at the head of one PolicyInformation, if it is one. */
  function PolicyOidOf(entry: Read): seq<bytes> {
    if entry.tag != 0x30 then []
    else
      match ReadTlvConsumed(entry.value)
      case None => []
      case Some(oid) => if oid.tag == 0x06 then [oid.value] else []
  }

  /** The OIDs of a list of PolicyInformation, up to the first entry that does not parse. */
  function PolicyOids(list: bytes): seq<bytes>
    decreases |list|
  {
    if list == [] then []
    else
      match ReadTlvConsumed(list)
      case None => []
      case Some(entry) => PolicyOidOf(entry) + PolicyOids(list[entry.used..])
  }

  function Policies(der: bytes): Option<seq<bytes>> {
    var ext :- SearchFrom(der, OID_CERTIFICATE_POLICIES, 0);
    var list :- UnwrapSequence(ext);
    Some(PolicyOids(list))
  }

  method CertificatePolicies(der: bytes) returns (r: Option<seq<bytes>>)
    ensures r == Policies(der)
  {
    var ext :- ExtensionValue(der, OID_CERTIFICATE_POLICIES);
    var list :- UnwrapSequence(ext);
    var rest := list;
    var out: seq<bytes> := [];
    while rest != []
      invariant PoliciesWalked(list, out, rest)
      decreases |rest|
    {
      PoliciesWalkStep(list, out, rest);
      var entry := ReadTlvConsumed(rest);
      if entry.None? {
        break;
      }
      rest := rest[entry.value.used..];
      if entry.value.tag != 0x30 {
        continue;
      }
      var oid := ReadTlvConsumed(entry.value.value);
      if oid.None? {
        continue;
      }
      if oid.value.tag == 0x06 {
        out := out + [oid.value.value];
      }
    }
    assert out + [] == out;
    r := Some(out);
  }

  /** A walk over `list` that has collected `out` and is left with `rest`. */
  ghost predicate PoliciesWalked(list: bytes, out: seq<bytes>, rest: bytes) {
    PolicyOids(list) == out + PolicyOids(rest)
  }

  lemma PoliciesWalkStep(list: bytes, out: seq<bytes>, rest: bytes)
    requires PoliciesWalked(list, out, rest) && rest != []
    ensures ReadTlvConsumed(rest).None? ==> PolicyOids(list) == out
    ensures ReadTlvConsumed(rest).Some? ==>
              var entry := ReadTlvConsumed(rest).value;
              && PoliciesWalked(list, out + PolicyOidOf(entry), rest[entry.used..])
              && (PolicyOidOf(entry) == [] ==> PoliciesWalked(list, out, rest[entry.used..]))
  {
    if ReadTlvConsumed(rest).Some? {
      var entry := ReadTlvConsumed(rest).value;
      var after := PolicyOids(rest[entry.used..]);
      assert out + (PolicyOidOf(entry) + after) == out + PolicyOidOf(entry) + after;
      assert out + [] == out;
    }
  }

  // ---------- the values the builder writes ----------

  /** A subjectAltName of one GeneralName. */
  function SanValue(oid: bytes): bytes {
    DerTlv(0x30, DerTlv(0x88, oid))
  }

  function AkiValue(keyId: bytes): bytes {
    DerTlv(0x30, DerTlv(0x80, keyId))
  }

  function PoliciesValue(role: bytes): bytes {
    DerTlv(0x30, DerTlv(0x30, DerTlv(0x06, role)))
  }

  /** Short-form values read back. */
  lemma ValuesReadBack(content: bytes)
    ensures |SanValue(content)| <= 0x7F <==> |content| <= 0x7B
    ensures |AkiValue(content)| <= 0x7F <==> |content| <= 0x7B
    ensures |PoliciesValue(content)| <= 0x7F <==> |content| <= 0x79
    ensures |content| <= 0x7B ==> UnwrapSequence(SanValue(content)) == Some(DerTlv(0x88, content))
    ensures |content| <= 0x7B ==> ReadTlvConsumed(DerTlv(0x88, content)) == Some(Read(0x88, content, 2 + |content|))
    ensures |content| <= 0x7B ==> UnwrapSequence(AkiValue(content)) == Some(DerTlv(0x80, content))
    ensures |content| <= 0x7B ==> KeyIdentifierIn(DerTlv(0x80, content)) == Some(content)
    ensures |content| <= 0x79 ==> UnwrapSequence(PoliciesValue(content)) == Some(DerTlv(0x30, DerTlv(0x06, content)))
    ensures |content| <= 0x79 ==> PolicyOids(DerTlv(0x30, DerTlv(0x06, content))) == [content]
  {
    if |content| <= 0x7B {
      ReadsBack(0x88, content);
      ReadsBack(0x30, DerTlv(0x88, content));
      ReadsBack(0x80, content);
      ReadsBack(0x30, DerTlv(0x80, content));
    }
    if |content| <= 0x79 {
      ReadsBack(0x06, content);
      var entry := DerTlv(0x30, DerTlv(0x06, content));
      ReadsBack(0x30, DerTlv(0x06, content));
      ReadsBack(0x30, entry);
      assert entry[ReadTlvConsumed(entry).value.used..] == [];
    }
  }

  lemma ReadsBack(tag: byte, value: bytes)
    requires |value| <= 0x7F
    ensures ReadTlvConsumed(DerTlv(tag, value)) == Some(Read(tag, value, 2 + |value|))
    ensures |DerTlv(tag, value)| == 2 + |value|
  {
    ReadTlvConsumedUndoesDerTlv(tag, value, []);
    assert DerTlv(tag, value) + [] == DerTlv(tag, value);
  }
}
