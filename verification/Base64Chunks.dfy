/**
  What the base64 decoder answers, said without its loops: the alphabet of Table 1 of RFC 4648, and
  the octets that chunks of four characters spell.
 */
module Base64Chunks {
  import opened Bytes
  import opened Base64

  /** Table 1 of RFC 4648. */
  const ALPHABET: string := "ABCDEFGHIJKLMNOPQRSTUVWXYZ" + "abcdefghijklmnopqrstuvwxyz" + "0123456789" + "+/"

  /** A character stands for its position in the alphabet. */
  lemma SextetIsPosition(c: char, v: nat)
    ensures |ALPHABET| == 64
    ensures Sextet(c) == Some(v) <==> v < 64 && ALPHABET[v] == c
  {
    if v < 64 {
      SymbolIsInAlphabet(v);
      if Sextet(c) == Some(v) {
        SymbolOfSextet(c);
      }
    }
  }

  lemma SymbolIsInAlphabet(v: nat)
    requires v < 64
    ensures ALPHABET[v] == Symbol(v)
  {
    if v < 26 {
      Capital(v);
    } else if v < 52 {
      SmallLetter(v - 26);
    } else if v < 62 {
      Digit(v - 52);
    }
  }

  lemma Capital(v: nat)
    requires v < 26
    ensures "ABCDEFGHIJKLMNOPQRSTUVWXYZ"[v] == (v + 'A' as nat) as char
  {
  }

  lemma SmallLetter(v: nat)
    requires v < 26
    ensures "abcdefghijklmnopqrstuvwxyz"[v] == (v + 'a' as nat) as char
  {
  }

  lemma Digit(v: nat)
    requires v < 10
    ensures "0123456789"[v] == (v + '0' as nat) as char
  {
  }

  /** What is stripped is space, tab, line feed, form feed and carriage return, wherever they are. */
  lemma StrippedCharacter(c: char)
    ensures Stripped([c]) == if c in {' ', '\t', '\n', 0x0C as char, '\r'} then "" else [c]
  {
    assert Stripped("") == "";
  }

  lemma {:induction false} StrippedOfConcat(a: string, b: string)
    ensures Stripped(a + b) == Stripped(a) + Stripped(b)
  {
    if a == "" {
      assert a + b == b;
    } else {
      assert (a + b)[1..] == a[1..] + b;
      StrippedOfConcat(a[1..], b);
    }
  }

  function Flattened<T>(parts: seq<seq<T>>): seq<T> {
    if parts == [] then [] else parts[0] + Flattened(parts[1..])
  }

  /** The six bits of a character; padding is six zeroes. */
  predicate IsSextetOf(c: char, v: nat) {
    if c == '=' then v == 0 else v < |ALPHABET| && ALPHABET[v] == c
  }

  /** Of the octets of a 24-bit number the first three, two or one, as there are no, one or more padding characters. */
  ghost predicate AreOctetsOf(octets: bytes, n: nat, pad: nat) {
    && n < 0x100_0000
    && octets == [(n / 0x1_0000) as byte, (n / 0x100 % 0x100) as byte, (n % 0x100) as byte]
                 [..if pad == 0 then 3 else if pad == 1 then 2 else 1]
  }

  /** Four characters and the octets they decode to: the six bits of each, one after the other, padding or not. */
  ghost predicate IsChunk(c: string, octets: bytes) {
    |c| == 4 && exists v0: nat, v1: nat, v2: nat, v3: nat :: IsChunkWith(c, octets, v0, v1, v2, v3)
  }

  ghost predicate IsChunkWith(c: string, octets: bytes, v0: nat, v1: nat, v2: nat, v3: nat)
    requires |c| == 4
  {
    && IsSextetOf(c[0], v0) && IsSextetOf(c[1], v1) && IsSextetOf(c[2], v2) && IsSextetOf(c[3], v3)
    && AreOctetsOf(octets, v0 * 0x4_0000 + v1 * 0x1000 + v2 * 0x40 + v3,
                   (if c[0] == '=' then 1 else 0) + (if c[1] == '=' then 1 else 0)
                   + (if c[2] == '=' then 1 else 0) + (if c[3] == '=' then 1 else 0))
  }

  ghost predicate AreChunks(cs: seq<string>, parts: seq<bytes>) {
    |cs| == |parts| && forall i :: 0 <= i < |cs| ==> IsChunk(cs[i], parts[i])
  }

  lemma ContributionIsSextet(c: char, v: nat)
    ensures IsSextetOf(c, v) <==> IsAccepted(c) && v == Contribution(c)
  {
    SextetIsPosition(c, v);
    if Sextet(c).Some? {
      SextetIsPosition(c, Sextet(c).value);
    }
    assert Sextet('=').None?;
  }

  lemma ChunkExactly(c: string, octets: bytes)
    requires |c| == 4
    ensures IsChunk(c, octets) <==> AllAccepted(c) && ChunkOctets(c) == octets
  {
    forall v0: nat, v1: nat, v2: nat, v3: nat
      ensures IsChunkWith(c, octets, v0, v1, v2, v3) ==> AllAccepted(c) && ChunkOctets(c) == octets
    {
      ChunkWithExactly(c, octets, v0, v1, v2, v3);
    }
    ChunkWithExactly(c, octets, Contribution(c[0]), Contribution(c[1]), Contribution(c[2]), Contribution(c[3]));
  }

  lemma ChunkWithExactly(c: string, octets: bytes, v0: nat, v1: nat, v2: nat, v3: nat)
    requires |c| == 4
    ensures IsChunkWith(c, octets, v0, v1, v2, v3) <==>
            && AllAccepted(c) && ChunkOctets(c) == octets
            && v0 == Contribution(c[0]) && v1 == Contribution(c[1]) && v2 == Contribution(c[2]) && v3 == Contribution(c[3])
  {
    ContributionIsSextet(c[0], v0);
    ContributionIsSextet(c[1], v1);
    ContributionIsSextet(c[2], v2);
    ContributionIsSextet(c[3], v3);
    assert AllAccepted(c) <==> IsAccepted(c[0]) && IsAccepted(c[1]) && IsAccepted(c[2]) && IsAccepted(c[3]);
    ChunkOctetsOfNumber(c, octets);
  }

  lemma ChunkOctetsOfNumber(c: string, octets: bytes)
    requires |c| == 4
    ensures ChunkOctets(c) == octets <==>
            AreOctetsOf(octets, Contribution(c[0]) * 0x4_0000 + Contribution(c[1]) * 0x1000 + Contribution(c[2]) * 0x40
                                + Contribution(c[3]),
                        (if c[0] == '=' then 1 else 0) + (if c[1] == '=' then 1 else 0)
                        + (if c[2] == '=' then 1 else 0) + (if c[3] == '=' then 1 else 0))
  {
    SextetsValueBound(c);
    PadCountOfFour(c);
    OctetsOfNumber(SextetsValue(c), PadCount(c), octets);
  }

  lemma OctetsOfNumber(n: nat, pad: nat, octets: bytes)
    requires n < 0x100_0000
    ensures AreOctetsOf(octets, n, pad) <==>
            octets == OctetsLeft((n / 0x1_0000 % 0x100) as byte, (n / 0x100 % 0x100) as byte, (n % 0x100) as byte, pad)
  {
    assert n / 0x1_0000 < 0x100;
  }

  /** The same in terms of the decoder's own functions. */
  ghost predicate AreDecoded(cs: seq<string>, parts: seq<bytes>) {
    && |cs| == |parts|
    && forall i :: 0 <= i < |cs| ==> |cs[i]| == 4 && AllAccepted(cs[i]) && ChunkOctets(cs[i]) == parts[i]
  }

  lemma ChunksExactly(cs: seq<string>, parts: seq<bytes>)
    ensures AreChunks(cs, parts) <==> AreDecoded(cs, parts)
  {
    forall i | 0 <= i < |cs| && |cs| == |parts|
      ensures IsChunk(cs[i], parts[i]) <==> |cs[i]| == 4 && AllAccepted(cs[i]) && ChunkOctets(cs[i]) == parts[i]
    {
      if |cs[i]| == 4 {
        ChunkExactly(cs[i], parts[i]);
      }
    }
  }

  lemma {:induction false} ChunksAreDecoded(cs: seq<string>, parts: seq<bytes>)
    requires AreDecoded(cs, parts)
    ensures |Flattened(cs)| % 4 == 0 && AllAccepted(Flattened(cs))
    ensures ChunksOctets(Flattened(cs)) == Flattened(parts)
  {
    if cs != [] {
      ChunksAreDecoded(cs[1..], parts[1..]);
      ChunkBeforeRest(cs[0], Flattened(cs[1..]));
    }
  }

  lemma ChunkBeforeRest(c: string, rest: string)
    requires |c| == 4 && AllAccepted(c) && |rest| % 4 == 0 && AllAccepted(rest)
    ensures AllAccepted(c + rest) && ChunksOctets(c + rest) == ChunkOctets(c) + ChunksOctets(rest)
  {
    assert (c + rest)[..4] == c && (c + rest)[4..] == rest;
  }

  lemma {:induction false} DecodedIsChunks(s: string) returns (cs: seq<string>, parts: seq<bytes>)
    requires |s| % 4 == 0 && AllAccepted(s)
    ensures AreDecoded(cs, parts) && s == Flattened(cs) && ChunksOctets(s) == Flattened(parts)
  {
    if s == "" {
      cs, parts := [], [];
    } else {
      var cs', parts' := DecodedIsChunks(s[4..]);
      ChunkIsPart(s, 0);
      cs, parts := [s[..4]] + cs', [ChunkOctets(s[..4])] + parts';
      assert cs[1..] == cs' && parts[1..] == parts' && s == s[..4] + s[4..];
    }
  }

  /**
    The decoder, on every text: it answers exactly where the text without its whitespace is chunks,
    with the octets of those chunks, and reports everything else.
   */
  lemma DecodesExactly(s: string, octets: bytes)
    ensures Decoded(s) == Ok(octets) <==>
            exists cs, parts :: Stripped(s) == Flattened(cs) && AreChunks(cs, parts) && octets == Flattened(parts)
    ensures Decoded(s).Err? ==> Decoded(s) == Err(Certificate)
  {
    forall cs, parts | Stripped(s) == Flattened(cs) && AreChunks(cs, parts)
      ensures Decoded(s) == Ok(Flattened(parts))
    {
      ChunksExactly(cs, parts);
      ChunksAreDecoded(cs, parts);
    }
    if Decoded(s).Ok? {
      var cs, parts := DecodedIsChunks(Stripped(s));
      ChunksExactly(cs, parts);
    }
  }
}
