/**
 * binaryToDecimal: reads a most-significant-bit-first string of '0'/'1' as an
 * unsigned number, or, when it is flagged signed and its first bit is '1', as
 * a two's-complement negative number by inverting every bit, parsing, adding
 * one and negating. Weight is the textbook positional value the recipe is
 * proved against, and Encode is its inverse.
 */
module Decoder {
  import opened Wrappers
  import opened Numerals

  predicate IsBitString(s: string) {
    forall i :: 0 <= i < |s| ==> s[i] == '0' || s[i] == '1'
  }

  /** The value parseInt(s, 2) accumulates over the bits, most significant first. */
  function BinaryValue(s: string): int {
    if s == [] then 0 else 2 * BinaryValue(s[..|s| - 1]) + DigitValue(s[|s| - 1])
  }

  /** parseInt(s, 2) on a bit string; the empty string gives NaN (None). */
  function ParseBinary(s: string): (r: Option<int>)
    requires IsBitString(s)
    ensures r.None? <==> s == []
  {
    if s == [] then None else Some(BinaryValue(s))
  }

  /** Every '0' becomes '1' and every other character '0'. */
  function Invert(s: string): (r: string)
    ensures |r| == |s|
    ensures IsBitString(r)
  {
    if s == [] then [] else [if s[0] == '0' then '1' else '0'] + Invert(s[1..])
  }

  function BinaryToDecimal(binary: string, signed: bool): (r: Option<int>)
    requires IsBitString(binary)
    ensures r.None? <==> binary == []
  {
    if signed && binary != [] && binary[0] == '1' then
      match ParseBinary(Invert(binary))
      case None => None
      case Some(v) => Some((v + 1) * -1)
    else
      ParseBinary(binary)
  }

  /** Sum of 2^(n-1-i) over the positions i that hold a '1'. */
  function Weight(s: string): nat
    requires IsBitString(s)
  {
    if s == [] then 0 else (if s[0] == '1' then Pow2(|s| - 1) else 0) + Weight(s[1..])
  }

  /** The value of an n-bit pattern: its weight, less 2^n when it is signed and its top bit is set. */
  function TwosComplementValue(binary: string, signed: bool): int
    requires IsBitString(binary) && binary != []
  {
    Weight(binary) - (if signed && binary[0] == '1' then Pow2(|binary|) else 0)
  }

  lemma {:induction false} WeightAppend(s: string, c: char)
    requires IsBitString(s) && (c == '0' || c == '1')
    ensures IsBitString(s + [c])
    ensures Weight(s + [c]) == 2 * Weight(s) + (if c == '1' then 1 else 0)
  {
    if s != [] {
      assert (s + [c])[1..] == s[1..] + [c];
      WeightAppend(s[1..], c);
    }
  }

  /** Bit accumulation agrees with the positional sum. */
  lemma {:induction false} BinaryValueIsWeight(s: string)
    requires IsBitString(s)
    ensures BinaryValue(s) == Weight(s)
  {
    if s != [] {
      var front := s[..|s| - 1];
      BinaryValueIsWeight(front);
      WeightAppend(front, s[|s| - 1]);
      assert front + [s[|s| - 1]] == s;
    }
  }

  /** An n-bit pattern weighs less than 2^n, and at least 2^(n-1) exactly when its top bit is '1'. */
  lemma {:induction false} WeightBounds(s: string)
    requires IsBitString(s)
    ensures Weight(s) < Pow2(|s|)
    ensures s != [] ==> (s[0] == '1' <==> Weight(s) >= Pow2(|s| - 1))
  {
    if s != [] {
      WeightBounds(s[1..]);
    }
  }

  /** Inverting every bit of an n-bit pattern gives the weight 2^n - 1 minus its own. */
  lemma {:induction false} InvertWeight(s: string)
    requires IsBitString(s)
    ensures IsBitString(Invert(s))
    ensures Weight(Invert(s)) == Pow2(|s|) - 1 - Weight(s)
  {
    if s != [] {
      assert Invert(s)[1..] == Invert(s[1..]);
      InvertWeight(s[1..]);
    }
  }

  /** The invert, add one, negate recipe computes the two's-complement value. */
  lemma {:induction false} DecodeIsTwosComplement(binary: string, signed: bool)
    requires IsBitString(binary) && binary != []
    ensures BinaryToDecimal(binary, signed) == Some(TwosComplementValue(binary, signed))
  {
    BinaryValueIsWeight(binary);
    if signed && binary[0] == '1' {
      InvertWeight(binary);
      BinaryValueIsWeight(Invert(binary));
    }
  }

  /**
   * Unsigned values lie in [0, 2^n - 1]; signed values in [-2^(n-1), 2^(n-1) - 1],
   * negative exactly when the top bit is '1'.
   */
  lemma DecodeRange(binary: string, signed: bool)
    requires IsBitString(binary) && binary != []
    ensures BinaryToDecimal(binary, signed).Some?
    ensures var v := BinaryToDecimal(binary, signed).value;
      if signed then -(Pow2(|binary| - 1) as int) <= v < Pow2(|binary| - 1) && (v < 0 <==> binary[0] == '1')
      else 0 <= v < Pow2(|binary|)
  {
    DecodeIsTwosComplement(binary, signed);
    WeightBounds(binary);
  }

  /** A signed pattern whose top bit is '0' reads as it would unsigned. */
  lemma SignedNonNegativeIsUnsigned(binary: string)
    requires IsBitString(binary) && binary != [] && binary[0] == '0'
    ensures BinaryToDecimal(binary, true) == BinaryToDecimal(binary, false)
  {
  }

  /** A signed pattern whose top bit is '1' reads as its unsigned value less 2^n. */
  lemma SignedNegativeWraps(binary: string)
    requires IsBitString(binary) && binary != [] && binary[0] == '1'
    ensures BinaryToDecimal(binary, true).value == BinaryToDecimal(binary, false).value - Pow2(|binary|)
  {
    DecodeIsTwosComplement(binary, true);
    DecodeIsTwosComplement(binary, false);
  }

  /** The worked example of the rules panel: 1001 signed is -7. */
  lemma WorkedExample()
    ensures BinaryToDecimal("1001", true) == Some(-7)
  {
    var b := "1001";
    assert b[1..] == "001" && b[1..][1..] == "01" && b[1..][1..][1..] == "1" && b[1..][1..][1..][1..] == "";
    assert Weight("1") == 1;
    assert Weight("01") == 1;
    assert Weight("001") == 1;
    assert Pow2(4) == 16;
    assert Weight(b) == 9;
    DecodeIsTwosComplement(b, true);
  }

  /** The ends of the 4-bit signed range: 1000 is -8 and 0111 is 7. */
  lemma FourBitSignedBounds()
    ensures BinaryToDecimal("1000", true) == Some(-8)
    ensures BinaryToDecimal("0111", true) == Some(7)
  {
    assert Pow2(3) == 8;
    DecodeRange("1000", true);
    DecodeRange("0111", true);
    DecodeIsTwosComplement("1000", true);
    DecodeIsTwosComplement("0111", true);
  }

  /** The ends of the 4-bit unsigned range: 0000 is 0 and 1111 is 15. */
  lemma FourBitUnsignedBounds()
    ensures BinaryToDecimal("0000", false) == Some(0)
    ensures BinaryToDecimal("1111", false) == Some(15)
  {
    assert Pow2(4) == 16;
    DecodeRange("0000", false);
    DecodeRange("1111", false);
    DecodeIsTwosComplement("0000", false);
    DecodeIsTwosComplement("1111", false);
  }

  /** The n low-order bits of v, most significant first. */
  function UnsignedBits(v: nat, n: nat): (s: string)
    ensures |s| == n && IsBitString(s)
  {
    if n == 0 then [] else UnsignedBits(v / 2, n - 1) + [if v % 2 == 1 then '1' else '0']
  }

  predicate Representable(v: int, n: nat, signed: bool) {
    n >= 1 && if signed then -(Pow2(n - 1) as int) <= v < Pow2(n - 1) else 0 <= v < Pow2(n)
  }

  /** The n-bit pattern that reads as v: v itself, or v + 2^n for a negative signed v. */
  function Encode(v: int, n: nat, signed: bool): string
    requires Representable(v, n, signed)
  {
    UnsignedBits(if v < 0 then v + Pow2(n) else v, n)
  }

  lemma {:induction false} UnsignedBitsWeight(v: nat, n: nat)
    requires v < Pow2(n)
    ensures Weight(UnsignedBits(v, n)) == v
  {
    if n > 0 {
      UnsignedBitsWeight(v / 2, n - 1);
      WeightAppend(UnsignedBits(v / 2, n - 1), if v % 2 == 1 then '1' else '0');
    }
  }

  lemma {:induction false} WeightThenBits(s: string)
    requires IsBitString(s)
    ensures UnsignedBits(Weight(s), |s|) == s
  {
    if s != [] {
      var front, last := s[..|s| - 1], s[|s| - 1];
      assert front + [last] == s;
      WeightAppend(front, last);
      WeightThenBits(front);
    }
  }

  /** Every representable value survives encoding and decoding. */
  lemma EncodeThenDecode(v: int, n: nat, signed: bool)
    requires Representable(v, n, signed)
    ensures BinaryToDecimal(Encode(v, n, signed), signed) == Some(v)
  {
    var b := Encode(v, n, signed);
    UnsignedBitsWeight(if v < 0 then v + Pow2(n) else v, n);
    WeightBounds(b);
    DecodeIsTwosComplement(b, signed);
  }

  /** Every bit pattern is the encoding of the value it decodes to. */
  lemma DecodeThenEncode(binary: string, signed: bool)
    requires IsBitString(binary) && binary != []
    ensures Representable(BinaryToDecimal(binary, signed).value, |binary|, signed)
    ensures Encode(BinaryToDecimal(binary, signed).value, |binary|, signed) == binary
  {
    var n := |binary|;
    var v := TwosComplementValue(binary, signed);
    DecodeRange(binary, signed);
    DecodeIsTwosComplement(binary, signed);
    WeightBounds(binary);
    assert (if v < 0 then v + Pow2(n) else v) == Weight(binary);
    WeightThenBits(binary);
  }
}
