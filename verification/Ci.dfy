/**
  The CI keys an eUICC trusts, and the choice of the one to verify a server certificate with.
 */
module Ci {
  import opened Bytes
  import opened Primitives
  import opened X509
  import opened TestPki
  import Certificates

  datatype CiKey = CiKey(id: bytes, key: PublicKey)

  datatype CiSelection = NoMatch | SignatureInvalid | Unspecified

  datatype Verdict = Accepted(key: CiKey) | Rejected(reason: CiSelection)

  /** Either identifier may be a truncation of the other; an empty one matches nothing. */
  predicate IdsMatch(stored: bytes, requested: bytes) {
    stored != [] && requested != [] &&
    var n := if |stored| <= |requested| then |stored| else |requested|;
    stored[..n] == requested[..n]
  }

  lemma MatchingIsPrefixing(stored: bytes, requested: bytes)
    ensures IdsMatch(stored, requested) <==>
            stored != [] && requested != [] && (stored <= requested || requested <= stored)
  {
  }

  /** Whether a key verifies a given certificate. */
  function Verifier(p: Suite, der: bytes): CiKey -> bool {
    (k: CiKey) => VerifySignedByKey(p, der, k.key).Ok?
  }

  /** The keys that match, in insertion order. */
  function Candidates(keys: seq<CiKey>, requestedId: bytes): seq<CiKey> {
    if keys == [] then []
    else
      var n := |keys| - 1;
      Candidates(keys[..n], requestedId) + (if IdsMatch(keys[n].id, requestedId) then [keys[n]] else [])
  }

  /** The first candidate that verifies the certificate. */
  function FirstVerifying(verifies: CiKey -> bool, candidates: seq<CiKey>): Option<CiKey> {
    if candidates == [] then None
    else if verifies(candidates[0]) then Some(candidates[0])
    else FirstVerifying(verifies, candidates[1..])
  }

  function Select(verifies: CiKey -> bool, keys: seq<CiKey>, requestedId: bytes): Verdict {
    if requestedId == [] then Rejected(Unspecified)
    else
      var candidates := Candidates(keys, requestedId);
      if candidates == [] then Rejected(NoMatch)
      else
        match FirstVerifying(verifies, candidates)
        case Some(k) => Accepted(k)
        case None => Rejected(SignatureInvalid)
  }

  class CiKeySet {
    var keys: seq<CiKey>

    constructor ()
      ensures keys == []
    {
      keys := [];
    }

    method Add(id: bytes, key: PublicKey)
      modifies this
      ensures keys == old(keys) + [CiKey(id, key)]
    {
      keys := keys + [CiKey(id, key)];
    }

    method VerifyServerCertificate(p: Suite, requestedId: bytes, certificate: ParsedCertificate)
      returns (r: Verdict)
      ensures r == Select(Verifier(p, certificate.der), keys, requestedId)
    {
      if requestedId == [] {
        return Rejected(Unspecified);
      }
      var candidates: seq<CiKey> := [];
      for i := 0 to |keys|
        invariant candidates == Candidates(keys[..i], requestedId)
      {
        assert keys[..i + 1][..i] == keys[..i];
        if IdsMatch(keys[i].id, requestedId) {
          candidates := candidates + [keys[i]];
        }
      }
      assert keys[..|keys|] == keys;
      if candidates == [] {
        return Rejected(NoMatch);
      }
      ghost var verifies := Verifier(p, certificate.der);
      for i := 0 to |candidates|
        invariant FirstVerifying(verifies, candidates) == FirstVerifying(verifies, candidates[i..])
      {
        if VerifySignedByKey(p, certificate.der, candidates[i].key).Ok? {
          return Accepted(candidates[i]);
        }
      }
      r := Rejected(SignatureInvalid);
    }
  }

  // ---------- the verdict, without the search ----------

  /** Key `i` matches the request. */
  predicate MatchesAt(keys: seq<CiKey>, requestedId: bytes, i: nat) {
    i < |keys| && IdsMatch(keys[i].id, requestedId)
  }

  /** Key `i` matches and verifies. */
  predicate AcceptsAt(verifies: CiKey -> bool, keys: seq<CiKey>, requestedId: bytes, i: nat) {
    MatchesAt(keys, requestedId, i) && verifies(keys[i])
  }

  /** Key `i` is the first that matches and verifies. */
  ghost predicate AcceptsFirstAt(verifies: CiKey -> bool, keys: seq<CiKey>, requestedId: bytes, i: nat) {
    && AcceptsAt(verifies, keys, requestedId, i)
    && forall j: nat :: j < i ==> !AcceptsAt(verifies, keys, requestedId, j)
  }

  lemma {:induction false} CandidatesAreTheMatching(keys: seq<CiKey>, requestedId: bytes)
    ensures Candidates(keys, requestedId) == [] <==> forall i: nat :: !MatchesAt(keys, requestedId, i)
  {
    if keys != [] {
      var n := |keys| - 1;
      CandidatesAreTheMatching(keys[..n], requestedId);
      forall i: nat
        ensures MatchesAt(keys, requestedId, i) <==>
                MatchesAt(keys[..n], requestedId, i) || (i == n && IdsMatch(keys[n].id, requestedId))
      {
      }
      assert IdsMatch(keys[n].id, requestedId) <==> MatchesAt(keys, requestedId, n);
    }
  }

  lemma {:induction false} FirstVerifyingOfConcat(verifies: CiKey -> bool, a: seq<CiKey>, b: seq<CiKey>)
    ensures FirstVerifying(verifies, a + b)
            == if FirstVerifying(verifies, a).Some? then FirstVerifying(verifies, a) else FirstVerifying(verifies, b)
  {
    if a == [] {
      assert a + b == b;
    } else {
      FirstVerifyingOfConcat(verifies, a[1..], b);
      assert (a + b)[1..] == a[1..] + b;
    }
  }

  /** The search through the candidates finds the first key that matches and verifies, or there is none. */
  lemma {:induction false} SearchIsExact(verifies: CiKey -> bool, keys: seq<CiKey>, requestedId: bytes)
    ensures var r := FirstVerifying(verifies, Candidates(keys, requestedId));
            && (r.None? ==> forall i: nat :: !AcceptsAt(verifies, keys, requestedId, i))
            && (r.Some? ==> exists i: nat :: AcceptsFirstAt(verifies, keys, requestedId, i) && keys[i] == r.value)
  {
    if keys != [] {
      var n := |keys| - 1;
      var front := Candidates(keys[..n], requestedId);
      SearchIsExact(verifies, keys[..n], requestedId);
      forall i: nat
        ensures AcceptsAt(verifies, keys, requestedId, i) <==>
                AcceptsAt(verifies, keys[..n], requestedId, i)
                || (i == n && IdsMatch(keys[n].id, requestedId) && verifies(keys[n]))
      {
      }
      FirstVerifyingOfConcat(verifies, front, if IdsMatch(keys[n].id, requestedId) then [keys[n]] else []);
      if FirstVerifying(verifies, front).Some? {
        var i: nat :| AcceptsFirstAt(verifies, keys[..n], requestedId, i)
                      && keys[..n][i] == FirstVerifying(verifies, front).value;
        assert AcceptsFirstAt(verifies, keys, requestedId, i);
      } else if AcceptsAt(verifies, keys, requestedId, n) {
        assert AcceptsFirstAt(verifies, keys, requestedId, n);
      }
    }
  }

  /**
    The four verdicts are exact: the request named no key; no key matches; keys match but none
    verifies; or this is the first key inserted that matches and verifies.
   */
  lemma VerdictIsExact(verifies: CiKey -> bool, keys: seq<CiKey>, requestedId: bytes)
    ensures Select(verifies, keys, requestedId) == Rejected(Unspecified) <==> requestedId == []
    ensures Select(verifies, keys, requestedId) == Rejected(NoMatch) <==>
            requestedId != [] && forall i: nat :: !MatchesAt(keys, requestedId, i)
    ensures Select(verifies, keys, requestedId) == Rejected(SignatureInvalid) <==>
            && requestedId != []
            && (exists i: nat :: MatchesAt(keys, requestedId, i))
            && forall i: nat :: !AcceptsAt(verifies, keys, requestedId, i)
    ensures forall k :: Select(verifies, keys, requestedId) == Accepted(k) <==>
              exists i: nat :: AcceptsFirstAt(verifies, keys, requestedId, i) && keys[i] == k
  {
    CandidatesAreTheMatching(keys, requestedId);
    SearchIsExact(verifies, keys, requestedId);
    forall i: nat, j: nat
      | AcceptsFirstAt(verifies, keys, requestedId, i) && AcceptsFirstAt(verifies, keys, requestedId, j)
      ensures i == j
    {
    }
  }

  lemma {:induction false} CandidatesOfConcat(keys: seq<CiKey>, more: seq<CiKey>, requestedId: bytes)
    ensures Candidates(keys + more, requestedId) == Candidates(keys, requestedId) + Candidates(more, requestedId)
    decreases |more|
  {
    if more == [] {
      assert keys + more == keys;
    } else {
      var n := |more| - 1;
      assert (keys + more)[..|keys| + n] == keys + more[..n];
      CandidatesOfConcat(keys, more[..n], requestedId);
    }
  }

  /** Keys added later never change an acceptance, and never hide that a key matched. */
  lemma LaterAddsKeepAcceptance(verifies: CiKey -> bool, keys: seq<CiKey>, more: seq<CiKey>, requestedId: bytes)
    ensures Select(verifies, keys, requestedId).Accepted? ==>
              Select(verifies, keys + more, requestedId) == Select(verifies, keys, requestedId)
    ensures Select(verifies, keys, requestedId) == Rejected(SignatureInvalid) ==>
              Select(verifies, keys + more, requestedId) != Rejected(NoMatch)
  {
    CandidatesOfConcat(keys, more, requestedId);
    FirstVerifyingOfConcat(verifies, Candidates(keys, requestedId), Candidates(more, requestedId));
  }

  /**
    Whatever else was added before or after, an issued certificate is accepted once its issuer's
    key is in the set under an identifier the request matches, and the key returned verifies it.
   */
  lemma IssuedCertificateIsAccepted(p: Suite, keys: seq<CiKey>, i: nat, requestedId: bytes, q: Request)
    requires Certificates.Fits(p, q) && p.SigningIsCorrect()
    requires i < |keys| && keys[i].key == p.PublicKeyOf(q.issuer) && IdsMatch(keys[i].id, requestedId)
    ensures var verifies := Verifier(p, CertificateDer(p, q));
            var v := Select(verifies, keys, requestedId);
            v.Accepted? && verifies(v.key)
  {
    Certificates.IssuedCertificateVerifies(p, q);
    var verifies := Verifier(p, CertificateDer(p, q));
    assert verifies(keys[i]);
    assert AcceptsAt(verifies, keys, requestedId, i);
    SearchIsExact(verifies, keys, requestedId);
  }

  /**
    Where nothing follows a certificate, an accepted one is one whose own tbsCertificate, the part
    its subject key is read from, verifies under a key in the set that the request matches.
   */
  lemma AcceptanceCoversOwnTbs(p: Suite, keys: seq<CiKey>, requestedId: bytes, der: bytes)
    requires NothingFollows(der) && Select(Verifier(p, der), keys, requestedId).Accepted?
    ensures var k := Select(Verifier(p, der), keys, requestedId).key;
            && (exists i: nat :: MatchesAt(keys, requestedId, i) && keys[i] == k)
            && OwnTbs(der).Ok? && TbsAndSignature(der).Ok?
            && p.verifyDer(k.key, OwnTbs(der).value, TbsAndSignature(der).value.signature)
  {
    SearchIsExact(Verifier(p, der), keys, requestedId);
    var k := Select(Verifier(p, der), keys, requestedId).key;
    var i: nat :| AcceptsFirstAt(Verifier(p, der), keys, requestedId, i) && keys[i] == k;
    assert MatchesAt(keys, requestedId, i);
    VerificationCoversOwnTbs(p, der, k.key);
  }

  /**
    Without that condition it need not be so: this input is accepted with the key of the request
    `own`, although the signature in it is over the tbsCertificate of `q`.
   */
  lemma AcceptanceNeedsNothingToFollow(
    p: Suite, keys: seq<CiKey>, i: nat, requestedId: bytes, q: Request, own: Request)
    requires Certificates.Fits(p, q) && p.SigningIsCorrect() && p.IsPublicKey(own.subject)
    requires |TbsContents(p, own)| == |TbsContents(p, q)|
    requires i < |keys| && keys[i].key == p.PublicKeyOf(q.issuer) && IdsMatch(keys[i].id, requestedId)
    ensures var der := Certificates.WithSignedTbsAfter(p, q, own);
            && FromDer(p, der) == Ok(ParsedCertificate(der, own.subject))
            && OwnTbs(der) == Ok(DerTlv(0x30, TbsContents(p, own)))
            && Select(Verifier(p, der), keys, requestedId).Accepted?
  {
    Certificates.FollowingTbsIsVerifiedInstead(p, q, own);
    var verifies := Verifier(p, Certificates.WithSignedTbsAfter(p, q, own));
    assert verifies(keys[i]);
    assert AcceptsAt(verifies, keys, requestedId, i);
    SearchIsExact(verifies, keys, requestedId);
  }
}
