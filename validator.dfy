/**
 * The word validator of the frame-buffer upload demo.
 *
 * A frame-buffer word is stored big-endian on disk: 30 payload bits and,
 * in bits 30-31, a 2-bit check value equal to the number of set payload bits
 * modulo 4.  The processor reads the word little-endian, so the validator
 * first reverses the byte order and then compares the check value with the
 * payload's bit count.
 */
module Validator {

  /** A 32-bit memory word (`uint32_t`). */
  type Word = bv32

  /** Number of payload bits below the 2-bit check value. */
  const PayloadBits: nat := 30

  /** Mask of the payload bits 0-29. */
  const PayloadMask: Word := 0x3FFF_FFFF

  /** Byte `k` of `w`, byte 0 being the least significant. */
  function Byte(w: Word, k: nat): bv8
    requires k < 4
  {
    ((w >> (8 * (k as bv5))) & 0xFF) as bv8
  }

  /** The byte-order reversal at the head of `validate`. */
  function ByteSwap(w: Word): Word
  {
    ((w & 0xFF00_0000) >> 24) |
    ((w & 0x00FF_0000) >> 8) |
    ((w & 0x0000_FF00) << 8) |
    ((w & 0x0000_00FF) << 24)
  }

  /** The byte swap puts byte k of its input at byte 3 - k of its result. */
  lemma ByteSwapReversesBytes(w: Word)
    ensures Byte(ByteSwap(w), 0) == Byte(w, 3) && Byte(ByteSwap(w), 1) == Byte(w, 2)
    ensures Byte(ByteSwap(w), 2) == Byte(w, 1) && Byte(ByteSwap(w), 3) == Byte(w, 0)
  {
  }

  /** Swapping twice gives the word back. */
  lemma ByteSwapInvolutive(w: Word)
    ensures ByteSwap(ByteSwap(w)) == w
  {
  }

  /** Bit `j` of `w` as a number, 0 or 1. */
  function Bit(w: Word, j: nat): (b: nat)
    requires j < 32
    ensures b <= 1
  {
    ((w >> (j as bv5)) & 1) as nat
  }

  /** The number of set bits among bit positions 0 .. n-1 of `w`. */
  function PopCount(w: Word, n: nat): (c: nat)
    requires n <= 32
    ensures c <= n
  {
    if n == 0 then 0 else PopCount(w, n - 1) + Bit(w, n - 1)
  }

  /** The 2-bit check value held in bits 30-31. */
  function Tag(w: Word): (t: nat)
    ensures t < 4
  {
    (w >> 30) as nat
  }

  /** The checksum convention on a word in disk (big-endian) order. */
  predicate WellFormed(x: Word) {
    PopCount(x, PayloadBits) % 4 == Tag(x)
  }

  /** The word `x` with bit `j` inverted. */
  function Flip(x: Word, j: nat): Word
    requires j < 32
  {
    x ^ (1 << (j as bv5))
  }

  /** What `validate` decides about a word as read from memory. */
  predicate IsValid(w: Word) {
    WellFormed(ByteSwap(w))
  }

  /**
   * `validate`: reverse the bytes, add up bits 0-29 in an 8-bit accumulator
   * and compare its low two bits with bits 30-31.
   */
  method Validate(input: Word) returns (ok: bool)
    ensures ok == IsValid(input)
  {
    var w := ByteSwap(input);
    // `sum` is a `uint8_t`: every addition wraps modulo 256.  The invariant
    // keeps it equal to the count so far, at most 30, so it never wraps.
    var sum: nat := 0;
    var j: nat := 0;
    while j < PayloadBits
      invariant j <= PayloadBits
      invariant sum == PopCount(w, j)
    {
      sum := (sum + Bit(w, j)) % 256;
      j := j + 1;
    }
    // `sum & 0b11` of a non-negative value is its remainder modulo 4.
    ok := sum % 4 == Tag(w);
  }

  /** Words that agree on bits 0 .. n-1 have the same count over those bits. */
  lemma {:induction false} PopCountAgree(a: Word, b: Word, n: nat)
    requires n <= 32
    requires forall i :: 0 <= i < n ==> Bit(a, i) == Bit(b, i)
    ensures PopCount(a, n) == PopCount(b, n)
  {
    if n > 0 {
      PopCountAgree(a, b, n - 1);
    }
  }

  /** A bit position survives the conversion to a 5-bit shift amount. */
  lemma PositionRoundTrip(i: nat)
    requires i < 32
    ensures (i as bv5) as nat == i
  {
  }

  /** Inverting bit `j` inverts that bit and no other. */
  lemma FlipBit(x: Word, j: nat, i: nat)
    requires j < 32 && i < 32
    ensures Bit(Flip(x, j), i) == if i == j then 1 - Bit(x, i) else Bit(x, i)
  {
    PositionRoundTrip(i);
    PositionRoundTrip(j);
    FlipShifted(x, j as bv5, i as bv5);
  }

  /** `FlipBit` on 5-bit shift amounts. */
  lemma FlipShifted(x: Word, q: bv5, p: bv5)
    ensures ((x ^ (1 << q)) >> p) & 1 == if p == q then ((x >> p) & 1) ^ 1 else (x >> p) & 1
  {
  }

  /** Inverting bit `j` moves the count over bits 0 .. n-1 by one when j < n. */
  lemma {:induction false} PopCountFlip(x: Word, j: nat, n: nat)
    requires j < 32 && n <= 32
    ensures PopCount(Flip(x, j), n) ==
            if j < n then PopCount(x, n) + 1 - 2 * Bit(x, j) else PopCount(x, n)
  {
    if n > 0 {
      PopCountFlip(x, j, n - 1);
      FlipBit(x, j, n - 1);
    }
  }

  /** The words that satisfy the convention, built from a 30-bit payload. */
  function Encode(payload: Word): Word
    requires payload <= PayloadMask
  {
    ByteSwap(payload | CheckBits(PopCount(payload, PayloadBits) % 4))
  }

  /** The check value `k` in bits 30-31 of an otherwise clear word. */
  function CheckBits(k: nat): Word
    requires k < 4
  {
    if k == 0 then 0 else if k == 1 then 0x4000_0000 else if k == 2 then 0x8000_0000 else 0xC000_0000
  }

  /** The payload bits of a memory word, in disk order. */
  function Decode(w: Word): Word
  {
    ByteSwap(w) & PayloadMask
  }

  /** Every encoded word passes `validate`. */
  lemma EncodeValid(payload: Word)
    requires payload <= PayloadMask
    ensures IsValid(Encode(payload))
  {
    var k := PopCount(payload, PayloadBits) % 4;
    var x := payload | CheckBits(k);
    ByteSwapInvolutive(x);
    PayloadCountKept(payload, k);
    CheckBitsPlaced(payload, k);
  }

  /** Decoding an encoded word gives its payload back. */
  lemma DecodeEncode(payload: Word)
    requires payload <= PayloadMask
    ensures Decode(Encode(payload)) == payload
  {
    var k := PopCount(payload, PayloadBits) % 4;
    ByteSwapInvolutive(payload | CheckBits(k));
    CheckBitsPlaced(payload, k);
  }

  /** Placing check bits does not change the count of payload bits. */
  lemma PayloadCountKept(payload: Word, k: nat)
    requires payload <= PayloadMask && k < 4
    ensures PopCount(payload | CheckBits(k), PayloadBits) == PopCount(payload, PayloadBits)
  {
    var x := payload | CheckBits(k);
    forall i | 0 <= i < PayloadBits
      ensures Bit(x, i) == Bit(payload, i)
    {
      PayloadBitKept(payload, k, i);
    }
    PopCountAgree(x, payload, PayloadBits);
  }

  /** Check bits placed above a 30-bit payload leave it intact and read back as the check value. */
  lemma CheckBitsPlaced(payload: Word, k: nat)
    requires payload <= PayloadMask && k < 4
    ensures (payload | CheckBits(k)) & PayloadMask == payload
    ensures Tag(payload | CheckBits(k)) == k
  {
    TagBits(payload | CheckBits(k));
  }

  /** Placing check bits does not change payload bit `i`. */
  lemma PayloadBitKept(payload: Word, k: nat, i: nat)
    requires payload <= PayloadMask && k < 4 && i < PayloadBits
    ensures Bit(payload | CheckBits(k), i) == Bit(payload, i)
  {
    PositionRoundTrip(i);
    var q := i as bv5;
    assert q < 30;
    assert ((payload | CheckBits(k)) >> q) & 1 == (payload >> q) & 1;
  }

  /** Inverting any one bit of a word in disk order breaks the convention. */
  lemma FlipBreaksCheck(x: Word, j: nat)
    requires j < 32 && WellFormed(x)
    ensures !WellFormed(Flip(x, j))
  {
    var y := Flip(x, j);
    PopCountFlip(x, j, PayloadBits);
    FlipTag(x, j);
    ModFourStep(PopCount(x, PayloadBits), PopCount(y, PayloadBits), Tag(x), Tag(y), j < PayloadBits);
  }

  /** Inverting a bit changes the check value exactly when the bit is 30 or 31. */
  lemma FlipTag(x: Word, j: nat)
    requires j < 32
    ensures (Tag(Flip(x, j)) == Tag(x)) == (j < PayloadBits)
  {
    TagBits(x);
    TagBits(Flip(x, j));
    FlipBit(x, j, 30);
    FlipBit(x, j, 31);
  }

  /**
   * Arithmetic core of `FlipBreaksCheck`: either the count moves by one and
   * the check value stays, or the count stays and the check value moves.
   */
  lemma ModFourStep(c: nat, c': nat, t: nat, t': nat, inPayload: bool)
    requires inPayload ==> (c' == c + 1 || c' + 1 == c) && t' == t
    requires !inPayload ==> c' == c && t' != t
    requires c % 4 == t
    ensures c' % 4 != t'
  {
  }

  /** The check value is bits 31 and 30 read as a two-digit binary number. */
  lemma TagBits(x: Word)
    ensures Tag(x) == 2 * Bit(x, 31) + Bit(x, 30)
  {
    PositionRoundTrip(30);
    PositionRoundTrip(31);
  }

  /** Byte order: bit j of a memory word is bit j ^ 24 of the word in disk order. */
  lemma ByteSwapFlip(w: Word, j: nat)
    requires j < 32
    ensures ByteSwap(Flip(w, j)) == Flip(ByteSwap(w), (j as bv5 ^ 24) as nat)
  {
    ShiftRoundTrip(j as bv5 ^ 24);
    ByteSwapFlipShifted(w, j as bv5);
  }

  /** `ByteSwapFlip` on 5-bit shift amounts. */
  lemma ByteSwapFlipShifted(w: Word, q: bv5)
    ensures ByteSwap(w ^ (1 << q)) == ByteSwap(w) ^ (1 << (q ^ 24))
  {
  }

  /** A 5-bit shift amount survives the conversion to a bit position. */
  lemma ShiftRoundTrip(p: bv5)
    ensures (p as nat) as bv5 == p
  {
  }

  /** `validate` rejects every word that differs from a valid one in exactly one bit. */
  lemma SingleBitFlipDetected(w: Word, j: nat)
    requires j < 32 && IsValid(w)
    ensures !IsValid(Flip(w, j))
  {
    ByteSwapFlip(w, j);
    FlipBreaksCheck(ByteSwap(w), (j as bv5 ^ 24) as nat);
  }
}
