/**
  The base64 decoder of `sgp26.rs` (section 4 of RFC 4648 for the alphabet and the padding).
 */
module Base64 {
  import opened Bytes

  // ---------- the alphabet ----------

  /** The six bits a character stands for. */
  function Sextet(c: char): (r: Option<nat>)
    ensures r.Some? ==> r.value < 64
  {
    if 'A' <= c <= 'Z' then Some(c as nat - 'A' as nat)
    else if 'a' <= c <= 'z' then Some(c as nat - 'a' as nat + 26)
    else if '0' <= c <= '9' then Some(c as nat - '0' as nat + 52)
    else if c == '+' then Some(62)
    else if c == '/' then Some(63)
    else None
  }

  /** The character for six bits. */
  function Symbol(v: nat): (c: char)
    requires v < 64
    ensures Sextet(c) == Some(v)
  {
    if v < 26 then (v + 'A' as nat) as char
    else if v < 52 then (v - 26 + 'a' as nat) as char
    else if v < 62 then (v - 52 + '0' as nat) as char
    else if v == 62 then '+' else '/'
  }

  predicate IsAsciiWhitespace(c: char) {
    c == ' ' || c == '\t' || c == '\n' || c == 0x0C as char || c == '\r'
  }

  predicate IsAccepted(c: char) {
    c == '=' || Sextet(c).Some?
  }

  predicate AllAccepted(s: string) {
    forall i :: 0 <= i < |s| ==> IsAccepted(s[i])
  }

  // ---------- decoding ----------

  function Stripped(s: string): (r: string)
    ensures forall i :: 0 <= i < |r| ==> !IsAsciiWhitespace(r[i])
  {
    if s == "" then ""
    else if IsAsciiWhitespace(s[0]) then Stripped(s[1..])
    else [s[0]] + Stripped(s[1..])
  }

  lemma {:induction false} StrippedOfSymbols(s: string)
    requires forall i :: 0 <= i < |s| ==> !IsAsciiWhitespace(s[i])
    ensures Stripped(s) == s
  {
    if s != "" {
      StrippedOfSymbols(s[1..]);
    }
  }

  /** What a character contributes; padding contributes nothing. */
  function Contribution(c: char): (r: nat)
    ensures r < 64
  {
    if Sextet(c).Some? then Sextet(c).value else 0
  }

  /** The number a run of characters spells, six bits each. */
  function SextetsValue(s: string): nat {
    if s == "" then 0 else SextetsValue(s[..|s| - 1]) * 64 + Contribution(s[|s| - 1])
  }

  function PadCount(s: string): (n: nat)
    ensures n <= |s|
  {
    if s == "" then 0 else PadCount(s[..|s| - 1]) + (if s[|s| - 1] == '=' then 1 else 0)
  }

  /** The octets of four characters. */
  function ChunkOctets(chunk: string): (r: bytes)
    requires |chunk| == 4
    ensures 1 <= |r| <= 3
  {
    var acc := SextetsValue(chunk);
    var (x, y, z) := ((acc / 0x1_0000 % 0x100) as byte, (acc / 0x100 % 0x100) as byte, (acc % 0x100) as byte);
    OctetsLeft(x, y, z, PadCount(chunk))
  }

  /** Three octets, less one for each padding character, but at least one. */
  function OctetsLeft(x: byte, y: byte, z: byte, pad: nat): (r: bytes)
    ensures 1 <= |r| <= 3
  {
    if pad == 0 then [x, y, z] else if pad == 1 then [x, y] else [x]
  }

  function ChunksOctets(s: string): bytes
    requires |s| % 4 == 0
  {
    if s == "" then [] else ChunkOctets(s[..4]) + ChunksOctets(s[4..])
  }

  function Decoded(s: string): Result<bytes> {
    var symbols := Stripped(s);
    if |symbols| % 4 != 0 then Err(Certificate)
    else if !AllAccepted(symbols) then Err(Certificate)
    else Ok(ChunksOctets(symbols))
  }

  method CountPadding(chunk: string) returns (pad: nat)
    ensures pad == PadCount(chunk)
  {
    pad := 0;
    for i := 0 to |chunk|
      invariant pad == PadCount(chunk[..i])
    {
      assert chunk[..i + 1][..i] == chunk[..i];
      if chunk[i] == '=' {
        pad := pad + 1;
      }
    }
    assert chunk[..|chunk|] == chunk;
  }

  /** Or each shifted sextet into an accumulator. */
  method Accumulate(chunk: string) returns (r: Result<nat>)
    requires |chunk| == 4
    ensures r.Ok? <==> AllAccepted(chunk)
    ensures r == if r.Ok? then Ok(SextetsValue(chunk)) else Err(Certificate)
  {
    var acc := 0;
    AccumulatedEnds(chunk);
    for i := 0 to 4
      invariant acc == Accumulated(chunk, i)
      invariant AllAccepted(chunk[..i])
    {
      if chunk[i] != '=' && Sextet(chunk[i]).None? {
        return Err(Certificate);
      }
      var v := if chunk[i] == '=' then 0 else Sextet(chunk[i]).value;
      AccumulateStep(chunk, i);
      acc := BitOr(acc, v * Pow2(18 - 6 * i));
    }
    assert chunk[..4] == chunk;
    r := Ok(acc);
  }

  /** The accumulator once `i` of four sextets are in it. */
  ghost function Accumulated(s: string, i: nat): nat
    requires i <= |s| == 4
  {
    SextetsValue(s[..i]) * Pow2(24 - 6 * i)
  }

  lemma AccumulatedEnds(s: string)
    requires |s| == 4
    ensures Accumulated(s, 0) == 0 && Accumulated(s, 4) == SextetsValue(s)
  {
    assert s[..4] == s && Pow2(0) == 1;
  }

  lemma AccumulateStep(s: string, i: nat)
    requires i < |s| == 4
    ensures BitOr(Accumulated(s, i), Contribution(s[i]) * Pow2(18 - 6 * i)) == Accumulated(s, i + 1)
  {
    assert s[..i + 1][..i] == s[..i];
    ShiftSextetIn(SextetsValue(s[..i]), Contribution(s[i]), 18 - 6 * i);
  }

  method DecodeChunk(chunk: string) returns (r: Result<bytes>)
    requires |chunk| == 4
    ensures r.Ok? <==> AllAccepted(chunk)
    ensures r == if r.Ok? then Ok(ChunkOctets(chunk)) else Err(Certificate)
  {
    var pad := CountPadding(chunk);
    var acc :- Accumulate(chunk);
    var out := [(acc / 0x1_0000 % 0x100) as byte];
    if pad < 2 {
      out := out + [(acc / 0x100 % 0x100) as byte];
    }
    if pad < 1 {
      out := out + [(acc % 0x100) as byte];
    }
    assert out == ChunkOctets(chunk);
    r := Ok(out);
  }

  lemma ShiftSextetIn(hi: nat, v: nat, shift: nat)
    requires v < 64
    ensures BitOr(hi * Pow2(shift + 6), v * Pow2(shift)) == (hi * 64 + v) * Pow2(shift)
  {
    var p := Pow2(shift);
    Pow2Adds(shift, 6);
    assert Pow2(6) == 64;
    Distributes(hi, v, p);
    BitOrOfDisjoint(hi, v * p, shift + 6);
  }

  lemma Distributes(hi: nat, v: nat, p: nat)
    requires p >= 1
    ensures hi * (p * 64) + v * p == (hi * 64 + v) * p
    ensures v < 64 ==> v * p < p * 64
  {
    if v < 64 {
      assert (63 - v) * p >= 0;
    }
  }

  lemma {:induction false} Pow2Adds(a: nat, b: nat)
    ensures Pow2(a + b) == Pow2(a) * Pow2(b)
  {
    if b > 0 {
      Pow2Adds(a, b - 1);
      assert Pow2(a) * (2 * Pow2(b - 1)) == 2 * (Pow2(a) * Pow2(b - 1));
    }
  }

  lemma SextetsValueBound(s: string)
    requires |s| == 4
    ensures SextetsValue(s)
            == Contribution(s[0]) * 0x4_0000 + Contribution(s[1]) * 0x1000 + Contribution(s[2]) * 0x40 + Contribution(s[3])
    ensures SextetsValue(s) < 0x100_0000
  {
    assert s[..3][..2] == s[..2] && s[..2][..1] == s[..1] && s[..1][..0] == "";
    assert SextetsValue(s[..1]) == Contribution(s[0]);
    assert SextetsValue(s[..2]) == SextetsValue(s[..1]) * 64 + Contribution(s[1]);
    assert SextetsValue(s[..3]) == SextetsValue(s[..2]) * 64 + Contribution(s[2]);
  }

  method Base64Decode(s: string) returns (r: Result<bytes>)
    ensures r == Decoded(s)
  {
    var symbols := Stripped(s);
    if |symbols| % 4 != 0 {
      return Err(Certificate);
    }
    var out: bytes := [];
    for k := 0 to |symbols| / 4
      invariant AllAccepted(symbols[..4 * k])
      invariant out == ChunksOctets(symbols[..4 * k])
    {
      var chunk := symbols[4 * k..4 * k + 4];
      var octets := DecodeChunk(chunk);
      if octets.Err? {
        ChunkIsPart(symbols, 4 * k);
        return octets;
      }
      assert symbols[..4 * k + 4] == symbols[..4 * k] + chunk;
      ChunksOctetsGrow(symbols[..4 * k], chunk);
      out := out + octets.value;
    }
    assert symbols[..4 * (|symbols| / 4)] == symbols;
    r := Ok(out);
  }

  lemma ChunkIsPart(s: string, at: nat)
    requires at + 4 <= |s|
    ensures AllAccepted(s) ==> AllAccepted(s[at..at + 4])
  {
  }

  lemma {:induction false} ChunksOctetsGrow(s: string, chunk: string)
    requires |s| % 4 == 0 && |chunk| == 4
    ensures ChunksOctets(s + chunk) == ChunksOctets(s) + ChunkOctets(chunk)
  {
    if s == "" {
      assert s + chunk == chunk && chunk[..4] == chunk && chunk[4..] == "";
      assert ChunkOctets(chunk) + [] == ChunkOctets(chunk);
    } else {
      assert (s + chunk)[..4] == s[..4] && (s + chunk)[4..] == s[4..] + chunk;
      ChunksOctetsGrow(s[4..], chunk);
    }
  }

  // ---------- the encoding ----------

  /** Three octets as four characters. */
  function EncodedTriple(a: byte, b: byte, c: byte): (r: string)
    ensures |r| == 4
  {
    var (x, y, z) := (a as nat, b as nat, c as nat);
    [Symbol(x / 4), Symbol(x % 4 * 16 + y / 16), Symbol(y % 16 * 4 + z / 64), Symbol(z % 64)]
  }

  function EncodedPair(a: byte, b: byte): (r: string)
    ensures |r| == 4
  {
    var (x, y) := (a as nat, b as nat);
    [Symbol(x / 4), Symbol(x % 4 * 16 + y / 16), Symbol(y % 16 * 4), '=']
  }

  function EncodedSingle(a: byte): (r: string)
    ensures |r| == 4
  {
    [Symbol(a as nat / 4), Symbol(a as nat % 4 * 16), '=', '=']
  }

  /** The standard encoding with padding. */
  function Encoded(b: bytes): (r: string)
    ensures |r| % 4 == 0
  {
    if b == [] then ""
    else if |b| == 1 then EncodedSingle(b[0])
    else if |b| == 2 then EncodedPair(b[0], b[1])
    else EncodedTriple(b[0], b[1], b[2]) + Encoded(b[3..])
  }

  /** The sextets of three octets spell the same number as the octets. */
  lemma TripleValue(a: byte, b: byte, c: byte)
    ensures var (x, y, z) := (a as nat, b as nat, c as nat);
            x / 4 * 0x4_0000 + (x % 4 * 16 + y / 16) * 0x1000 + (y % 16 * 4 + z / 64) * 0x40 + z % 64
            == x * 0x1_0000 + y * 0x100 + z
  {
  }

  lemma OctetsOfValue(x: nat, y: nat, z: nat)
    requires x < 0x100 && y < 0x100 && z < 0x100
    ensures var n := x * 0x1_0000 + y * 0x100 + z;
            n / 0x1_0000 % 0x100 == x && n / 0x100 % 0x100 == y && n % 0x100 == z
  {
    var n := x * 0x1_0000 + y * 0x100 + z;
    assert n / 0x1_0000 == x;
    assert n / 0x100 == x * 0x100 + y;
  }

  /** Four characters whose sextets spell three octets decode to as many of them as the padding leaves. */
  lemma ChunkDecodes(s: string, x: byte, y: byte, z: byte)
    requires |s| == 4
    requires Contribution(s[0]) * 0x4_0000 + Contribution(s[1]) * 0x1000 + Contribution(s[2]) * 0x40 + Contribution(s[3])
             == x as nat * 0x1_0000 + y as nat * 0x100 + z as nat
    ensures ChunkOctets(s) == OctetsLeft(x, y, z, PadCount(s))
  {
    SextetsValueBound(s);
    OctetsOfValue(x as nat, y as nat, z as nat);
  }

  /** Whole triples: no padding. */
  lemma TripleDecodes(a: byte, b: byte, c: byte)
    ensures ChunkOctets(EncodedTriple(a, b, c)) == [a, b, c]
  {
    var s := EncodedTriple(a, b, c);
    TripleValue(a, b, c);
    PadCountOfFour(s);
    ChunkDecodes(s, a, b, c);
  }

  /** One or two octets: padded. */
  lemma TailDecodes(a: byte, b: byte)
    ensures ChunkOctets(EncodedPair(a, b)) == [a, b]
    ensures ChunkOctets(EncodedSingle(a)) == [a]
  {
    TripleValue(a, b, 0);
    TripleValue(a, 0, 0);
    PadCountOfFour(EncodedPair(a, b));
    PadCountOfFour(EncodedSingle(a));
    ChunkDecodes(EncodedPair(a, b), a, b, 0);
    ChunkDecodes(EncodedSingle(a), a, 0, 0);
  }

  lemma PadCountOfFour(s: string)
    requires |s| == 4
    ensures PadCount(s) == (if s[0] == '=' then 1 else 0) + (if s[1] == '=' then 1 else 0)
                           + (if s[2] == '=' then 1 else 0) + (if s[3] == '=' then 1 else 0)
  {
    assert s[..3][..2] == s[..2] && s[..2][..1] == s[..1] && s[..1][..0] == "";
    assert PadCount(s[..1]) == if s[0] == '=' then 1 else 0;
    assert PadCount(s[..2]) == PadCount(s[..1]) + if s[1] == '=' then 1 else 0;
    assert PadCount(s[..3]) == PadCount(s[..2]) + if s[2] == '=' then 1 else 0;
  }

  lemma {:induction false} EncodedDecodes(b: bytes)
    ensures ChunksOctets(Encoded(b)) == b
    ensures AllAccepted(Encoded(b))
  {
    if 0 < |b| <= 2 {
      TailDecodes(b[0], if |b| == 2 then b[1] else 0);
      assert Encoded(b)[..4] == Encoded(b) && Encoded(b)[4..] == "";
    } else if |b| > 2 {
      var head := EncodedTriple(b[0], b[1], b[2]);
      TripleDecodes(b[0], b[1], b[2]);
      EncodedDecodes(b[3..]);
      assert Encoded(b)[..4] == head && Encoded(b)[4..] == Encoded(b[3..]);
      assert b == [b[0], b[1], b[2]] + b[3..];
    }
  }

  /** Any text that is an encoding once its whitespace is removed decodes to what was encoded. */
  lemma DecodeUndoesEncode(s: string, b: bytes)
    requires Stripped(s) == Encoded(b)
    ensures Decoded(s) == Ok(b)
  {
    EncodedDecodes(b);
  }

  /** What is accepted at all: whole chunks of alphabet and padding characters. */
  lemma DecodeAcceptsExactly(s: string)
    ensures Decoded(s).Ok? <==>
            |Stripped(s)| % 4 == 0 && AllAccepted(Stripped(s))
  {
  }

  /**
    The decoder's comment says it rejects rather than guesses. Padding is accepted anywhere, so
    texts that encode nothing decode to something.
   */
  lemma PaddingIsAcceptedAnywhere()
    ensures Decoded("====") == Ok([0]) && Encoded([0]) != "===="
  {
    StrippedOfSymbols("====");
    PadCountOfFour("====");
    ChunkDecodes("====", 0, 0, 0);
    assert "===="[..4] == "====" && "===="[4..] == "";
    assert ChunkOctets("====") + [] == ChunkOctets("====");
  }

  // ---------- which texts are encodings ----------

  /** Four characters that encode one, two or three octets: padding last, and no stray bits before it. */
  predicate IsCanonicalChunk(c: string)
    requires |c| == 4
  {
    && c[0] != '=' && c[1] != '='
    && (c[2] == '=' ==> c[3] == '=' && Contribution(c[1]) % 16 == 0)
    && (c[2] != '=' && c[3] == '=' ==> Contribution(c[2]) % 4 == 0)
  }

  /** Only the last chunk is padded, and it is canonical. */
  predicate IsCanonical(s: string)
    requires |s| % 4 == 0
  {
    s == "" || (IsCanonicalChunk(s[..4]) && (|s| > 4 ==> '=' !in s[..4] && IsCanonical(s[4..])))
  }

  lemma SymbolOfSextet(c: char)
    requires Sextet(c).Some?
    ensures Symbol(Sextet(c).value) == c
  {
  }

  /** The octets four sextets spell. */
  lemma OctetsOfSextets(v0: nat, v1: nat, v2: nat, v3: nat)
    requires v0 < 64 && v1 < 64 && v2 < 64 && v3 < 64
    ensures var (x, y, z) := (v0 * 4 + v1 / 16, v1 % 16 * 16 + v2 / 4, v2 % 4 * 64 + v3);
            && x < 0x100 && y < 0x100 && z < 0x100
            && v0 * 0x4_0000 + v1 * 0x1000 + v2 * 0x40 + v3 == x * 0x1_0000 + y * 0x100 + z
            && x / 4 == v0 && x % 4 * 16 + y / 16 == v1 && y % 16 * 4 + z / 64 == v2 && z % 64 == v3
            && x % 4 * 16 == v1 - v1 % 16 && y % 16 * 4 == v2 - v2 % 4
  {
    assert v1 == v1 / 16 * 16 + v1 % 16 && v2 == v2 / 4 * 4 + v2 % 4;
  }

  /** The octets of a chunk and, of its characters, the symbols its sextets stand for. */
  lemma ChunkParts(c: string) returns (x: byte, y: byte, z: byte)
    requires |c| == 4 && AllAccepted(c)
    ensures ChunkOctets(c) == OctetsLeft(x, y, z, PadCount(c))
    ensures var (v0, v1, v2, v3) := (Contribution(c[0]), Contribution(c[1]), Contribution(c[2]), Contribution(c[3]));
            && x as nat / 4 == v0
            && x as nat % 4 * 16 + y as nat / 16 == v1 && x as nat % 4 * 16 == v1 - v1 % 16
            && y as nat % 16 * 4 + z as nat / 64 == v2 && y as nat % 16 * 4 == v2 - v2 % 4
            && z as nat % 64 == v3
    ensures forall i :: 0 <= i < 4 && c[i] != '=' ==> Symbol(Contribution(c[i])) == c[i]
    ensures PadCount(c) == 0 <==> '=' !in c
  {
    var (v0, v1, v2, v3) := (Contribution(c[0]), Contribution(c[1]), Contribution(c[2]), Contribution(c[3]));
    OctetsOfSextets(v0, v1, v2, v3);
    x, y, z := (v0 * 4 + v1 / 16) as byte, (v1 % 16 * 16 + v2 / 4) as byte, (v2 % 4 * 64 + v3) as byte;
    ChunkDecodes(c, x, y, z);
    PadCountOfFour(c);
    forall i | 0 <= i < 4 && c[i] != '='
      ensures Symbol(Contribution(c[i])) == c[i]
    {
      SymbolOfSextet(c[i]);
    }
  }

  lemma UnpaddedChunkIsEncoding(c: string)
    requires |c| == 4 && AllAccepted(c) && PadCount(c) == 0
    ensures EncodedTriple(ChunkOctets(c)[0], ChunkOctets(c)[1], ChunkOctets(c)[2]) == c
    ensures |ChunkOctets(c)| == 3 && '=' !in c && IsCanonicalChunk(c)
  {
    var x, y, z := ChunkParts(c);
    PadCountOfFour(c);
    assert ChunkOctets(c) == [x, y, z];
    SameCharacters(EncodedTriple(x, y, z), c);
  }

  lemma OncePaddedChunkIsEncoding(c: string)
    requires |c| == 4 && AllAccepted(c) && PadCount(c) == 1
    ensures Encoded(ChunkOctets(c)) == c <==> IsCanonicalChunk(c)
  {
    var x, y, z := ChunkParts(c);
    PadCountOfFour(c);
    assert ChunkOctets(c) == [x, y];
    var e := EncodedPair(x, y);
    assert Encoded(ChunkOctets(c)) == e && e[3] == '=';
    if c[3] == '=' {
      assert e[0] == c[0] && e[1] == c[1] && e[2] == Symbol(y as nat % 16 * 4);
      SymbolIsInjective(y as nat % 16 * 4, Contribution(c[2]));
      SameCharacters(e, c);
    }
  }

  lemma TwicePaddedChunkIsEncoding(c: string)
    requires |c| == 4 && AllAccepted(c) && PadCount(c) > 1
    ensures Encoded(ChunkOctets(c)) == c <==> IsCanonicalChunk(c)
  {
    var x, y, z := ChunkParts(c);
    PadCountOfFour(c);
    assert ChunkOctets(c) == [x];
    var e := EncodedSingle(x);
    assert Encoded(ChunkOctets(c)) == e && e[0] != '=' && e[1] != '=';
    if c[0] != '=' && c[1] != '=' {
      assert e[0] == c[0] && e[1] == Symbol(x as nat % 4 * 16) && e[2] == c[2] && e[3] == c[3];
      SymbolIsInjective(x as nat % 4 * 16, Contribution(c[1]));
      SameCharacters(e, c);
    }
  }

  lemma SameCharacters(s: string, t: string)
    requires |s| == |t| == 4
    ensures s == t <==> s[0] == t[0] && s[1] == t[1] && s[2] == t[2] && s[3] == t[3]
  {
  }

  lemma SymbolIsInjective(v: nat, w: nat)
    requires v < 64 && w < 64
    ensures Symbol(v) == Symbol(w) <==> v == w
  {
  }

  lemma ChunkIsEncoding(c: string)
    requires |c| == 4 && AllAccepted(c)
    ensures Encoded(ChunkOctets(c)) == c <==> IsCanonicalChunk(c)
  {
    if PadCount(c) == 0 {
      UnpaddedChunkIsEncoding(c);
      var o := ChunkOctets(c);
      assert Encoded(o) == EncodedTriple(o[0], o[1], o[2]) + Encoded(o[3..]);
    } else if PadCount(c) == 1 {
      OncePaddedChunkIsEncoding(c);
    } else {
      TwicePaddedChunkIsEncoding(c);
    }
  }

  /**
    Decoding and encoding again gives the text back exactly for canonical texts, so those are the
    texts on which the decoder does not guess.
   */
  lemma {:induction false} OnlyCanonicalTextsAreEncodings(s: string)
    requires |s| % 4 == 0 && AllAccepted(s)
    ensures Encoded(ChunksOctets(s)) == s <==> IsCanonical(s)
  {
    if s != "" {
      var c, rest := s[..4], s[4..];
      var octets := ChunkOctets(c);
      assert s == c + rest;
      OnlyCanonicalTextsAreEncodings(rest);
      if rest == "" {
        ChunkIsEncoding(c);
        assert octets + [] == octets && c + rest == c;
      } else if PadCount(c) == 0 {
        UnpaddedChunkIsEncoding(c);
        EncodedAfterTriple(octets, ChunksOctets(rest));
        assert (c + Encoded(ChunksOctets(rest)))[4..] == Encoded(ChunksOctets(rest));
      } else {
        PadIsThere(c);
        if Encoded(ChunksOctets(s)) == s {
          LongEncodingsBeginUnpadded(ChunksOctets(s));
        }
      }
    }
  }

  lemma PadIsThere(c: string)
    requires |c| == 4 && PadCount(c) > 0
    ensures '=' in c
  {
    PadCountOfFour(c);
  }

  lemma EncodedAfterTriple(o: bytes, rest: bytes)
    requires |o| == 3
    ensures Encoded(o + rest) == EncodedTriple(o[0], o[1], o[2]) + Encoded(rest)
  {
    assert (o + rest)[3..] == rest;
  }

  lemma LongEncodingsBeginUnpadded(b: bytes)
    requires |Encoded(b)| > 4
    ensures '=' !in Encoded(b)[..4]
  {
    assert |b| > 2;
    assert Encoded(b)[..4] == EncodedTriple(b[0], b[1], b[2]);
  }
}
