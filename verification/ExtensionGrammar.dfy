/**
  What the extension readers return, said without them: the octets of short-form TLVs (section 8.1.3.4
  of ITU-T X.690) and the extensions of sections 4.2.1.1, 4.2.1.4 and 4.2.1.6 of RFC 5280.
 */
module ExtensionGrammar {
  import opened Bytes
  import opened X509
  import opened X509Extensions

  // ---------- one position of the search ----------

  /** `after` is `tail`, behind a `critical` flag of whatever short contents if it begins with one. */
  ghost predicate IsFlagThen(after: bytes, tail: bytes) {
    || (after != [] && after[0] != 0x01 && tail == after)
    || exists content :: |content| <= 0x7F && after == [0x01, |content| as byte] + content + tail
  }

  /** A flag whose length is missing or long-form, or that nothing follows. */
  predicate IsBrokenFlag(after: bytes) {
    after != [] && after[0] == 0x01 && (|after| < 2 || after[1] > 0x7F || |after| <= 2 + after[1] as nat)
  }

  lemma FlagEnds(after: bytes)
    requires after != [] && !IsBrokenFlag(after)
    ensures var n := if after[0] == 0x01 then 2 + after[1] as nat else 0;
            n < |after| && forall tail :: IsFlagThen(after, tail) <==> tail == after[n..]
  {
    var n := if after[0] == 0x01 then 2 + after[1] as nat else 0;
    forall tail
      ensures IsFlagThen(after, tail) <==> tail == after[n..]
    {
      FlagThenIs(after, tail, n);
    }
  }

  lemma FlagThenIs(after: bytes, tail: bytes, n: nat)
    requires after != [] && !IsBrokenFlag(after)
    requires n == if after[0] == 0x01 then 2 + after[1] as nat else 0
    ensures IsFlagThen(after, tail) <==> tail == after[n..]
  {
    forall content | |content| <= 0x7F && after == [0x01, |content| as byte] + content + tail
      ensures tail == after[n..]
    {
      assert after[1] == |content| as byte;
      assert ([0x01, |content| as byte] + content + tail)[2 + |content|..] == tail;
    }
    if after[0] == 0x01 && tail == after[n..] {
      var content := after[2..n];
      assert after == [0x01, |content| as byte] + content + tail;
    }
  }

  /**
    The search gives up at a position where the OID occurs before a broken flag, or before an OCTET
    STRING whose length is missing or long-form. It goes on where the OID does not occur, where
    something else than an OCTET STRING follows, and where the OCTET STRING runs past the end.
   */
  lemma DecisionExactly(der: bytes, oid: bytes, i: nat)
    requires i + |oid| < |der|
    ensures var after := der[i + |oid|..];
            DecisionAt(der, oid, i) == GiveUp <==>
            && OccursAt(der, oid, i)
            && (|| IsBrokenFlag(after)
                || exists tail :: IsFlagThen(after, tail) && |tail| > 0 && tail[0] == 0x04 && (|tail| < 2 || tail[1] > 0x7F))
    ensures var after := der[i + |oid|..];
            DecisionAt(der, oid, i) == Skip <==>
            || !OccursAt(der, oid, i)
            || exists tail :: IsFlagThen(after, tail) && |tail| > 0 && !IsBrokenFlag(after)
                              && (tail[0] != 0x04 || (|tail| >= 2 && tail[1] <= 0x7F && |tail| < 2 + tail[1] as nat))
  {
    var after := der[i + |oid|..];
    assert after[0] == der[i + |oid|];
    if OccursAt(der, oid, i) {
      if IsBrokenFlag(after) {
        BrokenFlagGivesUp(der, oid, i, after);
      } else {
        FlagEnds(after);
        var n := if after[0] == 0x01 then 2 + after[1] as nat else 0;
        ValueIsReadAfterFlag(der, oid, i, n);
        assert IsFlagThen(after, after[n..]);
      }
    }
  }

  lemma BrokenFlagGivesUp(der: bytes, oid: bytes, i: nat, after: bytes)
    requires i + |oid| < |der| && OccursAt(der, oid, i) && after == der[i + |oid|..] && IsBrokenFlag(after)
    ensures DecisionAt(der, oid, i) == GiveUp
    ensures forall tail :: IsFlagThen(after, tail) ==> tail == []
  {
    assert after[0] == der[i + |oid|];
    if |after| >= 2 {
      assert after[1] == der[i + |oid| + 1];
    }
    forall tail | IsFlagThen(after, tail)
      ensures tail == []
    {
      var content :| |content| <= 0x7F && after == [0x01, |content| as byte] + content + tail;
      assert after[1] == |content| as byte;
    }
  }

  lemma ValueIsReadAfterFlag(der: bytes, oid: bytes, i: nat, n: nat)
    requires i + |oid| < |der| && OccursAt(der, oid, i) && !IsBrokenFlag(der[i + |oid|..])
    requires n == if der[i + |oid|] == 0x01 then 2 + der[i + |oid|..][1] as nat else 0
    ensures n < |der[i + |oid|..]|
    ensures var tail := der[i + |oid|..][n..];
            DecisionAt(der, oid, i)
            == if tail[0] != 0x04 then Skip
               else if |tail| < 2 || tail[1] > 0x7F then GiveUp
               else if |tail| < 2 + tail[1] as nat then Skip
               else Found(tail[2..2 + tail[1] as nat])
  {
    var j := i + |oid|;
    var after := der[j..];
    assert after[0] == der[j];
    if der[j] == 0x01 {
      assert after[1] == der[j + 1];
    }
    TailOfTail(der, j, n);
    ValueAtTail(der, j + n);
  }

  lemma TailOfTail(s: bytes, j: nat, n: nat)
    requires j + n <= |s|
    ensures s[j..][n..] == s[j + n..]
  {
  }

  lemma ValueAtTail(der: bytes, j: nat)
    requires j < |der|
    ensures var tail := der[j..];
            ValueAt(der, j)
            == if tail[0] != 0x04 then Skip
               else if |tail| < 2 || tail[1] > 0x7F then GiveUp
               else if |tail| < 2 + tail[1] as nat then Skip
               else Found(tail[2..2 + tail[1] as nat])
  {
    var tail := der[j..];
    if |tail| >= 2 {
      assert tail[1] == der[j + 1];
      if tail[1] <= 0x7F && |tail| >= 2 + tail[1] as nat {
        assert tail[2..2 + tail[1] as nat] == der[j + 2..j + 2 + tail[1] as nat];
      }
    }
  }

  // ---------- short-form TLVs ----------

  /** `s` begins with a TLV whose length is one octet under 0x80, and `rest` follows it. */
  ghost predicate BeginsShort(s: bytes, tag: byte, value: bytes, rest: bytes) {
    |value| <= 0x7F && s == [tag, |value| as byte] + value + rest
  }

  lemma BeginsShortExactly(s: bytes, tag: byte, value: bytes, rest: bytes)
    ensures BeginsShort(s, tag, value, rest) <==>
            && ReadTlvConsumed(s).Some? && ReadTlvConsumed(s).value.tag == tag && ReadTlvConsumed(s).value.value == value
            && rest == s[ReadTlvConsumed(s).value.used..]
  {
    if BeginsShort(s, tag, value, rest) {
      assert s[0] == tag && s[1] == |value| as byte;
      assert s[2..2 + |value|] == value && s[2 + |value|..] == rest;
    }
    if ReadTlvConsumed(s).Some? {
      var t := ReadTlvConsumed(s).value;
      assert s == [s[0], s[1]] + s[2..t.used] + s[t.used..];
    }
  }

  lemma UnwrapExactly(buf: bytes, content: bytes)
    ensures UnwrapSequence(buf) == Some(content) <==> exists rest :: BeginsShort(buf, 0x30, content, rest)
  {
    forall rest | BeginsShort(buf, 0x30, content, rest)
      ensures UnwrapSequence(buf) == Some(content)
    {
      BeginsShortExactly(buf, 0x30, content, rest);
    }
    if UnwrapSequence(buf) == Some(content) {
      BeginsShortExactly(buf, 0x30, content, buf[ReadTlvConsumed(buf).value.used..]);
    }
  }

  /** `s` is the short-form TLVs of these elements, and then `rest`. */
  ghost predicate WalksShort(s: bytes, es: seq<Element>, rest: bytes)
    decreases |es|
  {
    if es == [] then s == rest
    else exists tail :: BeginsShort(s, es[0].tag, es[0].value, tail) && WalksShort(tail, es[1..], rest)
  }

  // ---------- the extensions ----------

  /** The first position that stops the search holds the extension with this value. */
  ghost predicate HasExtension(der: bytes, pattern: bytes, value: bytes) {
    exists k: nat, flag :: IsFirstDecision(der, pattern, k) && IsWrittenAt(der, pattern, k, flag, value)
  }

  /** The subjectAltName is read as the first of its names, of whatever kind and however many follow. */
  lemma SubjectAltNameExactly(der: bytes, name: bytes)
    ensures SubjectAltName(der) == Some(name) <==>
            exists ext, names, r, tag, r' ::
              && HasExtension(der, [0x06, 0x03, 0x55, 0x1D, 0x11], ext)
              && BeginsShort(ext, 0x30, names, r) && BeginsShort(names, tag, name, r')
  {
    forall ext
      ensures HasExtension(der, OID_SUBJECT_ALT_NAME, ext) <==> SearchFrom(der, OID_SUBJECT_ALT_NAME, 0) == Some(ext)
    {
      SearchReturnsExactly(der, OID_SUBJECT_ALT_NAME, ext);
    }
    forall ext, names, r, tag, r' | BeginsShort(ext, 0x30, names, r) && BeginsShort(names, tag, name, r')
      ensures UnwrapSequence(ext) == Some(names) && names != []
      ensures ReadTlvConsumed(names).Some? && ReadTlvConsumed(names).value.value == name
    {
      BeginsShortExactly(ext, 0x30, names, r);
      BeginsShortExactly(names, tag, name, r');
    }
    if SubjectAltName(der) == Some(name) {
      var ext := SearchFrom(der, OID_SUBJECT_ALT_NAME, 0).value;
      var names := UnwrapSequence(ext).value;
      var t := ReadTlvConsumed(names).value;
      UnwrapExactly(ext, names);
      BeginsShortExactly(names, t.tag, name, names[t.used..]);
    }
  }

  /** The key identifier is the first member tagged 0x80; members before it are passed over. */
  ghost predicate HasKeyIdentifier(members: bytes, keyId: bytes) {
    exists es, rest, rest' ::
      && WalksShort(members, es, rest) && LacksKeyIdentifier(es)
      && BeginsShort(rest, 0x80, keyId, rest')
  }

  ghost predicate LacksKeyIdentifier(es: seq<Element>) {
    forall i :: 0 <= i < |es| ==> es[i].tag != 0x80
  }

  lemma {:induction false} MembersWithKeyIdentifier(
    members: bytes, es: seq<Element>, rest: bytes, keyId: bytes, rest': bytes)
    requires WalksShort(members, es, rest) && LacksKeyIdentifier(es) && BeginsShort(rest, 0x80, keyId, rest')
    ensures KeyIdentifierIn(members) == Some(keyId)
    decreases |es|
  {
    if es == [] {
      BeginsShortExactly(members, 0x80, keyId, rest');
    } else {
      var tail :| BeginsShort(members, es[0].tag, es[0].value, tail) && WalksShort(tail, es[1..], rest);
      BeginsShortExactly(members, es[0].tag, es[0].value, tail);
      assert forall i :: 0 <= i < |es[1..]| ==> es[1..][i] == es[i + 1];
      MembersWithKeyIdentifier(tail, es[1..], rest, keyId, rest');
    }
  }

  lemma {:induction false} FoundKeyIdentifier(members: bytes)
    requires KeyIdentifierIn(members).Some?
    ensures HasKeyIdentifier(members, KeyIdentifierIn(members).value)
    decreases |members|
  {
    var t := ReadTlvConsumed(members).value;
    var tail := members[t.used..];
    BeginsShortExactly(members, t.tag, t.value, tail);
    if t.tag == 0x80 {
      assert WalksShort(members, [], members) && LacksKeyIdentifier([]);
    } else {
      FoundKeyIdentifier(tail);
      var es, rest, rest' :|
        && WalksShort(tail, es, rest) && LacksKeyIdentifier(es)
        && BeginsShort(rest, 0x80, KeyIdentifierIn(members).value, rest');
      var all := [Element(t.tag, t.value)] + es;
      assert all[1..] == es;
      assert WalksShort(members, all, rest) && LacksKeyIdentifier(all);
    }
  }

  lemma KeyIdentifierExactly(der: bytes, keyId: bytes)
    ensures KeyIdentifier(der) == Some(keyId) <==>
            exists ext, members, r ::
              && HasExtension(der, [0x06, 0x03, 0x55, 0x1D, 0x23], ext)
              && BeginsShort(ext, 0x30, members, r) && HasKeyIdentifier(members, keyId)
  {
    forall ext
      ensures HasExtension(der, OID_AUTHORITY_KEY_IDENTIFIER, ext)
              <==> SearchFrom(der, OID_AUTHORITY_KEY_IDENTIFIER, 0) == Some(ext)
    {
      SearchReturnsExactly(der, OID_AUTHORITY_KEY_IDENTIFIER, ext);
    }
    forall ext, members, r | BeginsShort(ext, 0x30, members, r)
      ensures UnwrapSequence(ext) == Some(members)
    {
      BeginsShortExactly(ext, 0x30, members, r);
    }
    forall members | HasKeyIdentifier(members, keyId)
      ensures KeyIdentifierIn(members) == Some(keyId)
    {
      var es, rest, rest' :|
        WalksShort(members, es, rest) && LacksKeyIdentifier(es) && BeginsShort(rest, 0x80, keyId, rest');
      MembersWithKeyIdentifier(members, es, rest, keyId, rest');
    }
    if KeyIdentifier(der) == Some(keyId) {
      var ext := SearchFrom(der, OID_AUTHORITY_KEY_IDENTIFIER, 0).value;
      var members := UnwrapSequence(ext).value;
      UnwrapExactly(ext, members);
      FoundKeyIdentifier(members);
    }
  }

  // ---------- the policies ----------

  /** A PolicyInformation that begins with this OID; qualifiers may follow it. */
  ghost predicate IsPolicy(e: Element, oid: bytes) {
    e.tag == 0x30 && exists r :: BeginsShort(e.value, 0x06, oid, r)
  }

  /** `oids` are those of the entries that have one, in order; other entries are passed over. */
  ghost predicate Collects(es: seq<Element>, oids: seq<bytes>)
    decreases |es|
  {
    if es == [] then oids == []
    else
      || (oids != [] && IsPolicy(es[0], oids[0]) && Collects(es[1..], oids[1..]))
      || ((forall oid :: !IsPolicy(es[0], oid)) && Collects(es[1..], oids))
  }

  /** No short-form TLV begins here: the list ends, or is unreadable from here on. */
  ghost predicate IsUnreadable(s: bytes) {
    forall tag, value, rest :: !BeginsShort(s, tag, value, rest)
  }

  ghost predicate ArePoliciesOf(list: bytes, oids: seq<bytes>) {
    exists es, rest :: WalksShort(list, es, rest) && IsUnreadable(rest) && Collects(es, oids)
  }

  lemma PolicyOidExactly(e: Element, used: nat)
    ensures PolicyOidOf(Read(e.tag, e.value, used)) == [] <==> forall oid :: !IsPolicy(e, oid)
    ensures forall oid :: PolicyOidOf(Read(e.tag, e.value, used)) == [oid] <==> IsPolicy(e, oid)
    ensures |PolicyOidOf(Read(e.tag, e.value, used))| <= 1
  {
    forall oid, r | BeginsShort(e.value, 0x06, oid, r)
      ensures e.tag == 0x30 ==> PolicyOidOf(Read(e.tag, e.value, used)) == [oid]
    {
      BeginsShortExactly(e.value, 0x06, oid, r);
    }
    var oids := PolicyOidOf(Read(e.tag, e.value, used));
    if oids != [] {
      BeginsShortExactly(e.value, 0x06, oids[0], e.value[ReadTlvConsumed(e.value).value.used..]);
      assert IsPolicy(e, oids[0]);
    }
  }

  lemma UnreadableExactly(s: bytes)
    ensures IsUnreadable(s) <==> ReadTlvConsumed(s).None?
  {
    forall tag, value, rest | BeginsShort(s, tag, value, rest)
      ensures ReadTlvConsumed(s).Some?
    {
      BeginsShortExactly(s, tag, value, rest);
    }
    if ReadTlvConsumed(s).Some? {
      var t := ReadTlvConsumed(s).value;
      BeginsShortExactly(s, t.tag, t.value, s[t.used..]);
    }
  }

  lemma {:induction false} WalkedPolicies(list: bytes, es: seq<Element>, rest: bytes, oids: seq<bytes>)
    requires WalksShort(list, es, rest) && IsUnreadable(rest) && Collects(es, oids)
    ensures PolicyOids(list) == oids
    decreases |es|
  {
    if es == [] {
      UnreadableExactly(list);
    } else {
      var tail :| BeginsShort(list, es[0].tag, es[0].value, tail) && WalksShort(tail, es[1..], rest);
      BeginsShortExactly(list, es[0].tag, es[0].value, tail);
      PolicyOidExactly(es[0], ReadTlvConsumed(list).value.used);
      if oids != [] && IsPolicy(es[0], oids[0]) && Collects(es[1..], oids[1..]) {
        WalkedPolicies(tail, es[1..], rest, oids[1..]);
        assert [oids[0]] + oids[1..] == oids;
      } else {
        WalkedPolicies(tail, es[1..], rest, oids);
        assert [] + oids == oids;
      }
    }
  }

  lemma {:induction false} CollectedPolicies(list: bytes)
    ensures ArePoliciesOf(list, PolicyOids(list))
    decreases |list|
  {
    if ReadTlvConsumed(list).None? {
      UnreadableExactly(list);
      assert WalksShort(list, [], list) && Collects([], PolicyOids(list));
    } else {
      var t := ReadTlvConsumed(list).value;
      var e, tail := Element(t.tag, t.value), list[t.used..];
      BeginsShortExactly(list, t.tag, t.value, tail);
      CollectedPolicies(tail);
      PolicyOidExactly(e, t.used);
      var es, rest :| WalksShort(tail, es, rest) && IsUnreadable(rest) && Collects(es, PolicyOids(tail));
      OneMoreCollected(e, es, PolicyOidOf(t), PolicyOids(tail));
      assert ([e] + es)[1..] == es;
      assert WalksShort(list, [e] + es, rest);
    }
  }

  lemma OneMoreCollected(e: Element, es: seq<Element>, first: seq<bytes>, oids: seq<bytes>)
    requires Collects(es, oids)
    requires (first == [] && forall oid :: !IsPolicy(e, oid)) || (|first| == 1 && IsPolicy(e, first[0]))
    ensures Collects([e] + es, first + oids)
  {
    assert ([e] + es)[1..] == es;
    if first == [] {
      assert first + oids == oids;
    } else {
      assert (first + oids)[1..] == oids;
    }
  }

  /** The policies are the OIDs of the entries, in order, up to where the list cannot be read further. */
  lemma PoliciesExactly(der: bytes, oids: seq<bytes>)
    ensures Policies(der) == Some(oids) <==>
            exists ext, list, r ::
              && HasExtension(der, [0x06, 0x03, 0x55, 0x1D, 0x20], ext)
              && BeginsShort(ext, 0x30, list, r) && ArePoliciesOf(list, oids)
  {
    forall ext
      ensures HasExtension(der, OID_CERTIFICATE_POLICIES, ext) <==> SearchFrom(der, OID_CERTIFICATE_POLICIES, 0) == Some(ext)
    {
      SearchReturnsExactly(der, OID_CERTIFICATE_POLICIES, ext);
    }
    forall ext, list, r | BeginsShort(ext, 0x30, list, r)
      ensures UnwrapSequence(ext) == Some(list)
    {
      BeginsShortExactly(ext, 0x30, list, r);
    }
    forall list | ArePoliciesOf(list, oids)
      ensures PolicyOids(list) == oids
    {
      var es, rest :| WalksShort(list, es, rest) && IsUnreadable(rest) && Collects(es, oids);
      WalkedPolicies(list, es, rest, oids);
    }
    if Policies(der) == Some(oids) {
      var ext := SearchFrom(der, OID_CERTIFICATE_POLICIES, 0).value;
      var list := UnwrapSequence(ext).value;
      UnwrapExactly(ext, list);
      CollectedPolicies(list);
    }
  }
}
