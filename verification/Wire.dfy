/**
  TLV framing shared by the signature encoding and BSP: tags and lengths as in sections 8.1.2
  and 8.1.3 of ITU-T X.690, restricted to one- and two-octet tags.
 */
module Wire {
  import opened Bytes

  // ---------- lengths ----------

  /** The largest length the two-octet long form holds. */
  const MAX_LENGTH := 0xFFFF

  /** The writer. It keeps two length octets, so a length over `MAX_LENGTH` loses its high part. */
  function DerLength(len: nat): (r: bytes)
    ensures 1 <= |r| <= 3
  {
    if len < 0x80 then [len as byte]
    else if len <= 0xFF then [0x81, len as byte]
    else [0x82, (len / 0x100 % 0x100) as byte, (len % 0x100) as byte]
  }

  /** A decoded length and the octets it took. */
  datatype Length = Length(len: nat, used: nat)

  /** What a length field says, whichever accepted form it is in. */
  function LengthField(input: bytes): (r: Option<Length>)
    ensures r.Some? ==> 1 <= r.value.used <= 5 && r.value.used <= |input| && r.value.len < 0x1_0000_0000
  {
    if input == [] then None
    else if input[0] < 0x80 then Some(Length(input[0] as nat, 1))
    else
      var count := input[0] as nat - 0x80;
      if count == 0 || count > 4 || |input| < 1 + count || input[1] == 0 then None
      else
        BigEndianValueBound(input[1..1 + count]);
        Some(Length(BigEndianValue(input[1..1 + count]), 1 + count))
  }

  /**
    The accepted forms of a length: one octet under 0x80, or 0x80 plus a count from one to four and
    as many octets, of which the first is not zero.
   */
  ghost predicate IsLength(l: bytes, len: nat) {
    || (|l| == 1 && l[0] < 0x80 && len == l[0] as nat)
    || (2 <= |l| <= 5 && l[0] as nat == 0x80 + (|l| - 1) && l[1] != 0x00 && len == BigEndianValue(l[1..]))
  }

  /** What is read is a length in one of the accepted forms, and everything else is rejected. */
  lemma LengthFieldExactly(input: bytes, len: nat, used: nat)
    ensures LengthField(input) == Some(Length(len, used)) <==> used <= |input| && IsLength(input[..used], len)
  {
    if input != [] && used <= |input| {
      if 1 <= used {
        assert input[..used][0] == input[0];
      }
      if 2 <= used {
        assert input[..used][1] == input[1] && input[..used][1..] == input[1..used];
      }
    }
  }

  lemma {:induction false} BigEndianValueBound(s: bytes)
    requires |s| <= 4
    ensures BigEndianValue(s) < Pow2(8 * |s|) <= 0x1_0000_0000
  {
    if s != [] {
      BigEndianValueBound(s[..|s| - 1]);
    }
    assert Pow2(8) == 0x100 && Pow2(16) == 0x1_0000 && Pow2(24) == 0x100_0000 && Pow2(32) == 0x1_0000_0000;
  }

  /** Or-ing an octet into the shifted value of those before it gives the value of them all. */
  lemma OctetIsShiftedIn(input: bytes, i: nat)
    requires 1 <= i < |input|
    ensures BigEndianValue(input[1..i + 1]) == BitOr(BigEndianValue(input[1..i]) * 0x100, input[i] as nat)
  {
    assert input[1..i + 1] == input[1..i] + [input[i]];
    assert Pow2(8) == 0x100;
    BitOrOfDisjoint(BigEndianValue(input[1..i]), input[i] as nat, 8);
  }

  /** The reader's loop: the length is shifted up and each octet or-ed in. */
  method ReadLength(input: bytes) returns (r: Result<Length>)
    ensures r.Ok? <==> LengthField(input).Some?
    ensures r.Ok? ==> r.value == LengthField(input).value
    ensures r.Err? ==> r.error == Malformed
  {
    if input == [] {
      return Err(Malformed);
    }
    var first := input[0];
    if first < 0x80 {
      return Ok(Length(first as nat, 1));
    }
    var count := (first % 0x80) as nat;
    if count == 0 || count == 0x7F || count > 4 || |input| < 1 + count || input[1] == 0 {
      return Err(Malformed);
    }
    var len := 0;
    for i := 1 to 1 + count
      invariant len == BigEndianValue(input[1..i])
    {
      OctetIsShiftedIn(input, i);
      len := BitOr(len * 0x100, input[i] as nat);
    }
    r := Ok(Length(len, 1 + count));
  }

  /** Reading undoes writing, at the front of any bytes, exactly up to `MAX_LENGTH`. */
  lemma LengthRoundTrip(len: nat, rest: bytes)
    ensures LengthField(DerLength(len) + rest) == Some(Length(len, |DerLength(len)|)) <==> len <= MAX_LENGTH
  {
    var d := DerLength(len) + rest;
    if 0x80 <= len <= 0xFF {
      assert d[1..2] == [len as byte];
      assert BigEndianValue([len as byte]) == len;
    } else if len > 0xFF {
      var hi, lo := (len / 0x100 % 0x100) as byte, (len % 0x100) as byte;
      assert d[1..3] == [hi, lo] && [hi, lo][..1] == [hi];
      assert BigEndianValue([hi]) == hi as nat;
      assert BigEndianValue([hi, lo]) == hi as nat * 0x100 + lo as nat;
    }
  }

  /** No accepted form of a length is shorter than the one written. */
  lemma DerLengthIsShortest(len: nat, l: bytes)
    requires len <= MAX_LENGTH && IsLength(l, len)
    ensures IsLength(DerLength(len), len) && |DerLength(len)| <= |l|
  {
    LengthRoundTrip(len, []);
    assert DerLength(len) + [] == DerLength(len);
    LengthFieldExactly(DerLength(len), len, |DerLength(len)|);
    assert DerLength(len)[..|DerLength(len)|] == DerLength(len);
    if |l| == 2 {
      assert l == [l[0]] + [l[1]];
      BigEndianDigits(l[1], 0, 0, 0);
    }
  }

  // ---------- TLVs ----------

  datatype Tlv = Tlv(tag: nat, value: bytes, total: nat)

  function ReadTlv(input: bytes): (r: Result<Tlv>)
    ensures r.Ok? ==> |r.value.value| < r.value.total <= |input|
    ensures r.Err? ==> r.error == Malformed
  {
    if input == [] then Err(Malformed)
    else if input[0] % 0x20 == 0x1F && |input| < 2 then Err(Malformed)
    else
      var (tag, tagBytes) :=
        if input[0] % 0x20 == 0x1F then (input[0] as nat * 0x100 + input[1] as nat, 2) else (input[0] as nat, 1);
      match LengthField(input[tagBytes..])
      case None => Err(Malformed)
      case Some(l) =>
        var start := tagBytes + l.used;
        var end := start + l.len;
        if |input| < end then Err(Malformed) else Ok(Tlv(tag, input[start..end], end))
  }

  /** The encoded tags this framing can read back: X.690 low-tag-number form, or two octets. */
  predicate IsWellFormedTag(tag: nat) {
    || (tag <= 0xFF && tag % 0x20 != 0x1F)
    || (0xFF < tag <= 0xFFFF && tag / 0x100 % 0x20 == 0x1F)
  }

  /** A tag that is already in its encoded form, as octets. */
  function TagOctets(tag: u32): (r: bytes)
    ensures 1 <= |r| <= 4
  {
    var t := tag as nat;
    if t <= 0xFF then [t as byte]
    else if t <= 0xFFFF then [(t / 0x100) as byte, (t % 0x100) as byte]
    else if t <= 0xFF_FFFF then [(t / 0x1_0000) as byte, (t / 0x100 % 0x100) as byte, (t % 0x100) as byte]
    else [(t / 0x100_0000) as byte, (t / 0x1_0000 % 0x100) as byte, (t / 0x100 % 0x100) as byte, (t % 0x100) as byte]
  }

  /** The writer for a tag already in encoded form. */
  function RawTlv(tag: u32, value: bytes): bytes {
    TagOctets(tag) + DerLength(|value|) + value
  }

  /** The tags that are read: one octet whose low five bits are not all set, or two octets where they are. */
  ghost predicate IsTag(t: bytes, tag: nat) {
    || (|t| == 1 && t[0] % 0x20 != 0x1F && tag == t[0] as nat)
    || (|t| == 2 && t[0] % 0x20 == 0x1F && tag == t[0] as nat * 0x100 + t[1] as nat)
  }

  ghost predicate IsTlvOf(s: bytes, t: bytes, l: bytes, tag: nat, value: bytes) {
    IsTag(t, tag) && IsLength(l, |value|) && s == t + l + value
  }

  /** What is read is tag, length and value laid end to end, and everything else is rejected. */
  lemma ReadTlvExactly(input: bytes, tag: nat, value: bytes, total: nat)
    ensures ReadTlv(input) == Ok(Tlv(tag, value, total)) <==>
            total <= |input| && IsTlv(input[..total], tag, value)
  {
    if ReadTlv(input) == Ok(Tlv(tag, value, total)) {
      var n := if input[0] % 0x20 == 0x1F then 2 else 1;
      var len := LengthField(input[n..]).value;
      LengthFieldExactly(input[n..], len.len, len.used);
      Regroup(input, n, len.used, |value|);
      assert IsTlvOf(input[..total], input[..n], input[n..][..len.used], tag, value);
    }
    if total <= |input| {
      forall t, l | IsTlvOf(input[..total], t, l, tag, value)
        ensures ReadTlv(input) == Ok(Tlv(tag, value, total))
      {
        LaidOutIsRead(input, t, l, tag, value);
      }
    }
  }

  /** The input begins with this TLV, in any of the accepted forms. */
  ghost predicate BeginsWithTlv(input: bytes, tag: nat, value: bytes) {
    exists total: nat :: total <= |input| && IsTlv(input[..total], tag, value)
  }

  ghost predicate IsTlv(s: bytes, tag: nat, value: bytes) {
    exists t, l :: IsTlvOf(s, t, l, tag, value)
  }

  lemma BeginsWithTlvExactly(input: bytes, tag: nat, value: bytes)
    ensures BeginsWithTlv(input, tag, value) <==>
            ReadTlv(input).Ok? && ReadTlv(input).value.tag == tag && ReadTlv(input).value.value == value
  {
    if ReadTlv(input).Ok? {
      ReadTlvExactly(input, ReadTlv(input).value.tag, ReadTlv(input).value.value, ReadTlv(input).value.total);
    }
    forall total: nat | total <= |input| && IsTlv(input[..total], tag, value)
      ensures ReadTlv(input) == Ok(Tlv(tag, value, total))
    {
      ReadTlvExactly(input, tag, value, total);
    }
  }

  lemma Regroup(s: bytes, i: nat, j: nat, k: nat)
    requires i + j + k <= |s|
    ensures s[..i + j + k] == s[..i] + s[i..][..j] + s[i + j..i + j + k]
  {
  }

  lemma LaidOutIsRead(input: bytes, t: bytes, l: bytes, tag: nat, value: bytes)
    requires |t| + |l| + |value| <= |input| && IsTlvOf(input[..|t| + |l| + |value|], t, l, tag, value)
    ensures ReadTlv(input) == Ok(Tlv(tag, value, |t| + |l| + |value|))
  {
    Split(input, t, l, value);
    LengthFieldExactly(input[|t|..], |value|, |l|);
  }

  /** Three parts at the front of an input are where they should be. */
  lemma Split(s: bytes, a: bytes, b: bytes, c: bytes)
    requires |a| + |b| + |c| <= |s| && s[..|a| + |b| + |c|] == a + b + c
    ensures s[..|a|] == a && s[|a|..][..|b|] == b && s[|a| + |b|..|a| + |b| + |c|] == c
    ensures forall i :: 0 <= i < |a| ==> s[i] == a[i]
  {
    var front := s[..|a| + |b| + |c|];
    assert front[..|a|] == s[..|a|] && front[|a|..|a| + |b|] == s[|a|..][..|b|];
    assert front[|a| + |b|..] == s[|a| + |b|..|a| + |b| + |c|];
    assert forall i :: 0 <= i < |a| ==> front[i] == s[i];
  }

  /** A tag's octets are its value, big-endian, without leading zeroes. */
  lemma TagOctetsAreMinimal(tag: u32)
    ensures BigEndianValue(TagOctets(tag)) == tag as nat
    ensures |TagOctets(tag)| > 1 ==> TagOctets(tag)[0] != 0x00
  {
    var t := tag as nat;
    var (a, b) := ((t / 0x100_0000) as byte, (t / 0x1_0000 % 0x100) as byte);
    var (c, d) := ((t / 0x100 % 0x100) as byte, (t % 0x100) as byte);
    BaseDigits(t);
    if t <= 0xFF {
      BigEndianDigits(d, 0, 0, 0);
    } else if t <= 0xFFFF {
      BigEndianDigits(c, d, 0, 0);
    } else if t <= 0xFF_FFFF {
      BigEndianDigits(b, c, d, 0);
    } else {
      BigEndianDigits(a, b, c, d);
    }
  }

  /** Whatever is read has a readable tag. */
  lemma ReadTagIsWellFormed(input: bytes)
    requires ReadTlv(input).Ok?
    ensures IsWellFormedTag(ReadTlv(input).value.tag)
  {
  }

  /**
    Reading undoes writing, whatever follows, exactly for readable tags and representable
    lengths.
   */
  lemma TlvRoundTrip(tag: u32, value: bytes, rest: bytes)
    ensures (&& ReadTlv(RawTlv(tag, value) + rest).Ok?
             && ReadTlv(RawTlv(tag, value) + rest).value.tag == tag as nat
             && ReadTlv(RawTlv(tag, value) + rest).value.value == value)
            <==> IsWellFormedTag(tag as nat) && |value| <= MAX_LENGTH
    ensures IsWellFormedTag(tag as nat) && |value| <= MAX_LENGTH ==>
              ReadTlv(RawTlv(tag, value) + rest) == Ok(Tlv(tag as nat, value, |RawTlv(tag, value)|))
  {
    var t, d := TagOctets(tag), DerLength(|value|);
    var input := RawTlv(tag, value) + rest;
    if IsWellFormedTag(tag as nat) {
      assert input[|t|..] == d + (value + rest);
      assert t[0] % 0x20 == 0x1F <==> |t| == 2;
      LengthRoundTrip(|value|, value + rest);
      if |value| <= MAX_LENGTH {
        assert input[|t| + |d|..|t| + |d| + |value|] == value;
      } else {
        LengthTruncates(|value|, value + rest);
      }
    } else if ReadTlv(input).Ok? {
      ReadTagIsWellFormed(input);
    }
  }

  /** A length over `MAX_LENGTH` never reads back as itself, in full or in part. */
  lemma LengthTruncates(len: nat, rest: bytes)
    requires len > MAX_LENGTH
    ensures LengthField(DerLength(len) + rest).Some? ==> LengthField(DerLength(len) + rest).value.len != len
  {
    LengthRoundTrip(len, rest);
    assert (DerLength(len) + rest)[1..3] == DerLength(len)[1..];
  }

  /** Tags and lengths form a prefix-free code: what follows them cannot be read as part of them. */
  lemma HeaderIsPrefixFree(tag: u32, len: nat, rest: bytes, tag': u32, len': nat, rest': bytes)
    requires IsWellFormedTag(tag as nat) && len <= MAX_LENGTH
    requires IsWellFormedTag(tag' as nat) && len' <= MAX_LENGTH
    requires TagOctets(tag) + DerLength(len) + rest == TagOctets(tag') + DerLength(len') + rest'
    ensures tag == tag' && len == len' && rest == rest'
  {
    var t, t' := TagOctets(tag), TagOctets(tag');
    var r, r' := DerLength(len) + rest, DerLength(len') + rest';
    assert t + r == TagOctets(tag) + DerLength(len) + rest && t' + r' == TagOctets(tag') + DerLength(len') + rest';
    assert (t + r)[0] == t[0] && (t' + r')[0] == t'[0];
    TagsOfOneLength(tag, tag');
    SameFront(t, r, t', r');
    assert tag == tag' by {
      TagOctetsAreMinimal(tag);
      TagOctetsAreMinimal(tag');
    }
    LengthRoundTrip(len, rest);
    LengthRoundTrip(len', rest');
    SameFront(DerLength(len), rest, DerLength(len'), rest');
  }

  /** The first octet of a well-formed tag says how many there are. */
  lemma TagsOfOneLength(tag: u32, tag': u32)
    requires IsWellFormedTag(tag as nat) && IsWellFormedTag(tag' as nat)
    requires TagOctets(tag)[0] == TagOctets(tag')[0]
    ensures |TagOctets(tag)| == |TagOctets(tag')|
  {
  }

  lemma SameFront(a: bytes, r: bytes, a': bytes, r': bytes)
    requires a + r == a' + r' && |a| == |a'|
    ensures a == a' && r == r'
  {
    assert a == (a + r)[..|a|] && r == (a + r)[|a|..] && a' == (a' + r')[..|a|] && r' == (a' + r')[|a|..];
  }

  // ---------- signatures ----------

  const TAG_SIGNATURE: u32 := 0x5F37

  method EncodeSignatureBytes(raw: bytes) returns (out: bytes)
    ensures out == RawTlv(TAG_SIGNATURE, raw)
  {
    out := [0x5F, 0x37];
    out := out + DerLength(|raw|);
    out := out + raw;
  }

  function ParseSignatureBytes(data: bytes): Result<bytes> {
    var tlv :- ReadTlv(data);
    if tlv.tag != TAG_SIGNATURE as nat then Err(Malformed) else Ok(tlv.value)
  }

  /** A signature field parses back exactly when its length is representable, and nothing else parses as it. */
  lemma SignatureRoundTrip(raw: bytes, rest: bytes)
    ensures ParseSignatureBytes(RawTlv(TAG_SIGNATURE, raw) + rest) == Ok(raw) <==> |raw| <= MAX_LENGTH
    ensures forall data :: ParseSignatureBytes(data).Ok? ==> data[..2] == [0x5F, 0x37]
  {
    TlvRoundTrip(TAG_SIGNATURE, raw, rest);
  }
}
