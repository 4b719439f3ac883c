/**
  Octets, fixed-width integers, and the crate's result type.
 */
module Bytes {

  newtype byte = x: int | 0 <= x < 0x100

  newtype u32 = x: int | 0 <= x < 0x1_0000_0000

  type bytes = seq<byte>

  /** The crate's error enumeration, without the message texts. */
  datatype Error = Malformed | VerificationFailed | Certificate

  datatype Result<+T> = Ok(value: T) | Err(error: Error) {
    predicate IsFailure() {
      Err?
    }

    function PropagateFailure<U>(): Result<U>
      requires Err?
    {
      Err(error)
    }

    function Extract(): T
      requires Ok?
    {
      value
    }
  }

  datatype Option<+T> = None | Some(value: T) {
    predicate IsFailure() {
      None?
    }

    function PropagateFailure<U>(): Option<U>
      requires None?
    {
      None
    }

    function Extract(): T
      requires Some?
    {
      value
    }
  }

  // ---------- bitwise operations ----------

  function Pow2(n: nat): (r: nat)
    ensures r >= 1
  {
    if n == 0 then 1 else 2 * Pow2(n - 1)
  }

  /** Bitwise exclusive or, one binary digit at a time. */
  function BitXor(a: nat, b: nat): nat
    decreases a + b
  {
    if a == 0 && b == 0 then 0 else (a + b) % 2 + 2 * BitXor(a / 2, b / 2)
  }

  /** Bitwise inclusive or, one binary digit at a time. */
  function BitOr(a: nat, b: nat): nat
    decreases a + b
  {
    if a == 0 && b == 0 then 0
    else (if a % 2 == 0 && b % 2 == 0 then 0 else 1) + 2 * BitOr(a / 2, b / 2)
  }

  lemma {:induction false} BitXorFits(a: nat, b: nat, width: nat)
    requires a < Pow2(width) && b < Pow2(width)
    ensures BitXor(a, b) < Pow2(width)
  {
    if width > 0 {
      BitXorFits(a / 2, b / 2, width - 1);
    }
  }

  lemma {:induction false} BitOrFits(a: nat, b: nat, width: nat)
    requires a < Pow2(width) && b < Pow2(width)
    ensures BitOr(a, b) < Pow2(width)
  {
    if width > 0 {
      BitOrFits(a / 2, b / 2, width - 1);
    }
  }

  lemma BitXorDigits(a: nat, b: nat)
    ensures BitXor(a, b) % 2 == (a + b) % 2 && BitXor(a, b) / 2 == BitXor(a / 2, b / 2)
  {
    if a != 0 || b != 0 {
      LowDigit((a + b) % 2, BitXor(a / 2, b / 2));
    }
  }

  /** Bit `k` of a number, counted from the least significant. */
  function Bit(n: nat, k: nat): nat {
    if k == 0 then n % 2 else Bit(n / 2, k - 1)
  }

  /** Each bit of an exclusive or is the sum of the two bits, without carry. */
  lemma {:induction false} BitXorBit(a: nat, b: nat, k: nat)
    ensures Bit(BitXor(a, b), k) == (Bit(a, k) + Bit(b, k)) % 2
    decreases k
  {
    BitXorDigits(a, b);
    if k > 0 {
      BitXorBit(a / 2, b / 2, k - 1);
    }
  }

  lemma LowDigit(d: nat, q: nat)
    requires d < 2
    ensures (d + 2 * q) % 2 == d && (d + 2 * q) / 2 == q
  {
  }

  lemma Parity(a: nat, b: nat, x: nat)
    requires x % 2 == (a + b) % 2
    ensures (x + b) % 2 == a % 2
  {
  }

  lemma {:induction false} BitXorCancels(a: nat, b: nat)
    ensures BitXor(BitXor(a, b), b) == a
    decreases a + b
  {
    if a != 0 || b != 0 {
      var x := BitXor(a, b);
      BitXorCancels(a / 2, b / 2);
      BitXorDigits(a, b);
      BitXorDigits(x, b);
      Parity(a, b, x);
      assert BitXor(x, b) / 2 == a / 2 && BitXor(x, b) % 2 == a % 2;
    }
  }

  lemma {:induction false} BitXorCommutes(a: nat, b: nat)
    ensures BitXor(a, b) == BitXor(b, a)
    decreases a + b
  {
    if a != 0 || b != 0 {
      BitXorCommutes(a / 2, b / 2);
    }
  }

  lemma {:induction false} BitXorIsZeroOnlyOnEqual(a: nat, b: nat)
    ensures BitXor(a, b) == 0 <==> a == b
    decreases a + b
  {
    if a != 0 || b != 0 {
      BitXorIsZeroOnlyOnEqual(a / 2, b / 2);
    }
  }

  lemma {:induction false} BitOrIsZeroOnlyOnZeros(a: nat, b: nat)
    ensures BitOr(a, b) == 0 <==> a == 0 && b == 0
    decreases a + b
  {
    if a != 0 || b != 0 {
      BitOrIsZeroOnlyOnZeros(a / 2, b / 2);
    }
  }

  /** Or-ing a shifted value with one that fits under the shift adds the two. */
  lemma {:induction false} BitOrOfDisjoint(hi: nat, lo: nat, shift: nat)
    requires lo < Pow2(shift)
    ensures BitOr(hi * Pow2(shift), lo) == hi * Pow2(shift) + lo
  {
    if shift == 0 {
      BitOrWithZero(hi);
    } else {
      var half := hi * Pow2(shift - 1);
      assert hi * Pow2(shift) == 2 * half;
      BitOrOfDisjoint(hi, lo / 2, shift - 1);
    }
  }

  lemma {:induction false} BitOrWithZero(a: nat)
    ensures BitOr(a, 0) == a
  {
    if a != 0 {
      BitOrWithZero(a / 2);
    }
  }

  /** Exclusive or on octets. */
  function Xor(a: byte, b: byte): byte {
    BitXorFits(a as nat, b as nat, 8);
    BitXor(a as nat, b as nat) as byte
  }

  /** Inclusive or on octets. */
  function Or(a: byte, b: byte): byte {
    BitOrFits(a as nat, b as nat, 8);
    BitOr(a as nat, b as nat) as byte
  }

  function Zeros(n: nat): (r: bytes)
    ensures |r| == n
  {
    seq(n, _ => 0)
  }

  // ---------- big-endian integers ----------

  /** The number a run of octets spells, most significant octet first. */
  function BigEndianValue(s: bytes): nat {
    if s == [] then 0 else BigEndianValue(s[..|s| - 1]) * 0x100 + s[|s| - 1] as nat
  }

  /** The values of up to four octets. */
  lemma BigEndianDigits(a: byte, b: byte, c: byte, d: byte)
    ensures BigEndianValue([a]) == a as nat
    ensures BigEndianValue([a, b]) == a as nat * 0x100 + b as nat
    ensures BigEndianValue([a, b, c]) == a as nat * 0x1_0000 + b as nat * 0x100 + c as nat
    ensures BigEndianValue([a, b, c, d])
            == a as nat * 0x100_0000 + b as nat * 0x1_0000 + c as nat * 0x100 + d as nat
  {
    assert [a, b, c, d][..3] == [a, b, c] && [a, b, c][..2] == [a, b] && [a, b][..1] == [a] && [a][..0] == [];
  }

  lemma BaseDigits(t: nat)
    requires t < 0x1_0000_0000
    ensures t == t / 0x100_0000 * 0x100_0000 + t / 0x1_0000 % 0x100 * 0x1_0000 + t / 0x100 % 0x100 * 0x100 + t % 0x100
  {
    assert t / 0x100 == t / 0x1_0000 * 0x100 + t / 0x100 % 0x100;
    assert t / 0x1_0000 == t / 0x100_0000 * 0x100 + t / 0x1_0000 % 0x100;
  }

  function BigEndian32(n: u32): (r: bytes)
    ensures |r| == 4
    ensures BigEndianValue(r) == n as nat
  {
    var v := n as nat;
    var (a, b) := ((v / 0x100_0000) as byte, (v / 0x1_0000 % 0x100) as byte);
    var (c, d) := ((v / 0x100 % 0x100) as byte, (v % 0x100) as byte);
    BaseDigits(v);
    BigEndianDigits(a, b, c, d);
    [a, b, c, d]
  }

  lemma {:induction false} LeadingZeros(n: nat, s: bytes)
    ensures BigEndianValue(Zeros(n) + s) == BigEndianValue(s)
    decreases n + |s|
  {
    var z := Zeros(n) + s;
    if s != [] {
      assert z[..|z| - 1] == Zeros(n) + s[..|s| - 1];
      LeadingZeros(n, s[..|s| - 1]);
    } else if n > 0 {
      assert z[..|z| - 1] == Zeros(n - 1) + [];
      LeadingZeros(n - 1, []);
    }
  }
}
