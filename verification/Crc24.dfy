/**
 The CRC-24 of the ASCII armor (section 6.1 of RFC 4880) as the shift register
 that computes it.
 */
module Crc24 {
  import opened ShiftRegister

  const INIT: bv32 := 0x00B7_04CE

  /** One shift of the 32-bit register; 0x1864CFB is the generator. */
  function BitStep(crc: bv32): bv32 {
    if (crc << 1) & 0x0100_0000 != 0 then (crc << 1) ^ 0x0186_4CFB else crc << 1
  }

  function Xor(a: bv32, b: bv32): bv32 { a ^ b }

  function Top(b: byte): bv32 { (b as bv32) << 16 }

  function Mid(b: byte): bv32 { (b as bv32) << 8 }

  function Low(b: byte): bv32 { b as bv32 }

  /** A register that fits in 24 bits. */
  predicate Fits(crc: bv32) {
    crc <= 0x00FF_FFFF
  }

  const CRC: Register<bv32> := Register(BitStep, Xor, Top, Mid, Low, Fits, 8)

  /** The register after `data`. */
  function Remainder(data: seq<byte>): bv32 {
    Run(CRC, INIT, data)
  }

  /** The checksum loop. The register never leaves 24 bits, so the final mask
      changes nothing. */
  method Checksum(data: seq<byte>) returns (r: bv32)
    ensures r == Remainder(data)
    ensures Fits(r)
  {
    var crc := INIT;
    for i := 0 to |data|
      invariant crc == Remainder(data[..i])
      invariant Fits(crc)
    {
      ghost var mixed := Xor(crc, Top(data[i]));
      MixFits(crc, data[i]);
      crc := crc ^ ((data[i] as bv32) << 16);
      for k := 0 to 8
        invariant crc == Iterate(BitStep, k, mixed)
        invariant Fits(crc)
      {
        BitStepFits(crc);
        ghost var before := crc;
        crc := crc << 1;
        if crc & 0x0100_0000 != 0 {
          crc := crc ^ 0x0186_4CFB;
        }
        assert crc == BitStep(before);
      }
      assert data[..i + 1][..i] == data[..i];
    }
    assert data[..|data|] == data;
    MaskIsIdentity(crc);
    r := crc & 0x00FF_FFFF;
  }

  // ----- Laws of one step -------------------------------------------------------------

  lemma MaskIsIdentity(crc: bv32)
    requires Fits(crc)
    ensures crc & 0x00FF_FFFF == crc
  {
  }

  lemma BitStepFits(crc: bv32)
    requires Fits(crc)
    ensures Fits(BitStep(crc))
  {
  }

  lemma MixFits(crc: bv32, b: byte)
    requires Fits(crc)
    ensures Fits(Xor(crc, Top(b)))
  {
  }

  lemma PackedFits(x: bv32, a: byte, b: byte, c: byte)
    requires Fits(x)
    ensures Fits(Xor(Xor(Xor(x, Top(a)), Mid(b)), Low(c)))
  {
  }

  /** The low bit of the stepped register tells whether the generator went in. */
  function BitUnstep(crc: bv32): bv32 {
    if crc & 1 != 0 then (crc ^ 0x0186_4CFB) >> 1 else crc >> 1
  }

  lemma BitStepIsInvertible(a: bv32)
    requires Fits(a)
    ensures BitUnstep(BitStep(a)) == a
  {
    if a & 0x0080_0000 != 0 {
      TopBitSetIsInvertible(a);
    } else {
      TopBitClearIsInvertible(a);
    }
  }

  lemma TopBitSetIsInvertible(a: bv32)
    requires Fits(a) && a & 0x0080_0000 != 0
    ensures BitUnstep(BitStep(a)) == a
  {
    assert (a << 1) & 0x0100_0000 != 0;
    assert ((a << 1) ^ 0x0186_4CFB) & 1 != 0;
  }

  lemma TopBitClearIsInvertible(a: bv32)
    requires Fits(a) && a & 0x0080_0000 == 0
    ensures BitUnstep(BitStep(a)) == a
  {
    assert (a << 1) & 0x0100_0000 == 0;
    assert (a << 1) & 1 == 0;
  }

  lemma BitStepIsInjective(a: bv32, b: bv32)
    requires Fits(a) && Fits(b) && BitStep(a) == BitStep(b)
    ensures a == b
  {
    BitStepIsInvertible(a);
    BitStepIsInvertible(b);
  }

  lemma BothTopBitsSet(a: bv32, b: bv32)
    requires a & 0x0080_0000 != 0 && b & 0x0080_0000 != 0
    ensures BitStep(Xor(a, b)) == Xor(BitStep(a), BitStep(b))
  {
    assert (a << 1) & 0x0100_0000 != 0 && (b << 1) & 0x0100_0000 != 0;
    assert ((a ^ b) << 1) & 0x0100_0000 == 0;
  }

  lemma OneTopBitSet(a: bv32, b: bv32)
    requires a & 0x0080_0000 != 0 && b & 0x0080_0000 == 0
    ensures BitStep(Xor(a, b)) == Xor(BitStep(a), BitStep(b))
  {
    assert (a << 1) & 0x0100_0000 != 0 && (b << 1) & 0x0100_0000 == 0;
    assert ((a ^ b) << 1) & 0x0100_0000 != 0;
  }

  lemma XorCommutes(a: bv32, b: bv32)
    ensures Xor(a, b) == Xor(b, a)
  {
  }

  lemma NoTopBitSet(a: bv32, b: bv32)
    requires a & 0x0080_0000 == 0 && b & 0x0080_0000 == 0
    ensures BitStep(Xor(a, b)) == Xor(BitStep(a), BitStep(b))
  {
    assert (a << 1) & 0x0100_0000 == 0 && (b << 1) & 0x0100_0000 == 0;
    assert ((a ^ b) << 1) & 0x0100_0000 == 0;
  }

  lemma BitStepIsLinear(a: bv32, b: bv32)
    ensures BitStep(Xor(a, b)) == Xor(BitStep(a), BitStep(b))
  {
    if a & 0x0080_0000 != 0 {
      if b & 0x0080_0000 != 0 { BothTopBitsSet(a, b); } else { OneTopBitSet(a, b); }
    } else {
      if b & 0x0080_0000 != 0 {
        OneTopBitSet(b, a);
        XorCommutes(a, b);
        XorCommutes(BitStep(a), BitStep(b));
      } else { NoTopBitSet(a, b); }
    }
  }

  lemma MixIsInjective(x: bv32, y: bv32, b: byte)
    requires Xor(x, Top(b)) == Xor(y, Top(b))
    ensures x == y
  {
    assert (x ^ ((b as bv32) << 16)) ^ ((b as bv32) << 16) == x;
    assert (y ^ ((b as bv32) << 16)) ^ ((b as bv32) << 16) == y;
  }

  lemma PackedGivesBytes(x: bv32, a: byte, b: byte, c: byte)
    ensures
      var w := x ^ Xor(Xor(Xor(x, Top(a)), Mid(b)), Low(c));
      w >> 16 == a as bv32 && (w >> 8) & 0xFF == b as bv32 && w & 0xFF == c as bv32
  {
  }

  lemma PackedIsInjective(x: bv32, a: byte, b: byte, c: byte, a': byte, b': byte, c': byte)
    requires Xor(Xor(Xor(x, Top(a)), Mid(b)), Low(c)) == Xor(Xor(Xor(x, Top(a')), Mid(b')), Low(c'))
    ensures a == a' && b == b' && c == c'
  {
    PackedGivesBytes(x, a, b, c);
    PackedGivesBytes(x, a', b', c');
  }

  lemma PlainStep(x: bv32)
    requires x & 0x0080_0000 == 0
    ensures BitStep(x) == x << 1
  {
    assert (x << 1) & 0x0100_0000 == 0;
  }

  lemma TwoPlainSteps(w: bv32)
    requires w <= 0x3F_FFFF
    ensures Iterate(BitStep, 2, w) == w << 2
  {
    PlainStep(w);
    PlainStep(w << 1);
    assert Iterate(BitStep, 1, w) == BitStep(w);
    assert Iterate(BitStep, 2, w) == BitStep(Iterate(BitStep, 1, w));
  }

  lemma FourPlainSteps(w: bv32)
    requires w <= 0xF_FFFF
    ensures Iterate(BitStep, 4, w) == w << 4
  {
    TwoPlainSteps(w);
    TwoPlainSteps(w << 2);
    IterateComposes(BitStep, 2, 2, w);
    assert (w << 2) << 2 == w << 4;
  }

  lemma EightPlainSteps(w: bv32)
    requires w <= 0xFFFF
    ensures Iterate(BitStep, 8, w) == w << 8
  {
    FourPlainSteps(w);
    FourPlainSteps(w << 4);
    IterateComposes(BitStep, 4, 4, w);
    assert (w << 4) << 4 == w << 8;
  }

  lemma BytesReachTheTop(b: byte)
    ensures Iterate(BitStep, 8, Low(b)) == Mid(b)
    ensures Iterate(BitStep, 8, Mid(b)) == Top(b)
  {
    EightPlainSteps(b as bv32);
    EightPlainSteps((b as bv32) << 8);
    assert ((b as bv32) << 8) << 8 == (b as bv32) << 16;
  }

  // ----- Burst errors -----------------------------------------------------------------

  lemma CrcIsLawful()
    ensures Lawful(CRC)
  {
    CrcIsClosed();
    CrcIsInjective();
    CrcStepIsAdditive();
    CrcBytesClimb();
  }

  lemma CrcIsClosed()
    ensures Closed(CRC)
  {
    forall x | Fits(x) ensures Fits(BitStep(x)) { BitStepFits(x); }
    forall x, b | Fits(x) ensures Fits(Mix(CRC, x, b)) { MixFits(x, b); }
    forall x, a, b, c | Fits(x) ensures Fits(Packed(CRC, x, a, b, c)) { PackedFits(x, a, b, c); }
  }

  lemma CrcIsInjective()
    ensures Injective(CRC)
  {
    forall x, y | Fits(x) && Fits(y) && BitStep(x) == BitStep(y) ensures x == y { BitStepIsInjective(x, y); }
    forall x, y, b | Mix(CRC, x, b) == Mix(CRC, y, b) ensures x == y { MixIsInjective(x, y, b); }
    forall x, a, b, c, a', b', c' | Packed(CRC, x, a, b, c) == Packed(CRC, x, a', b', c')
      ensures a == a' && b == b' && c == c'
    {
      PackedIsInjective(x, a, b, c, a', b', c');
    }
  }

  lemma CrcStepIsAdditive()
    ensures StepIsAdditive(CRC)
  {
    forall x, y ensures BitStep(Xor(x, y)) == Xor(BitStep(x), BitStep(y)) { BitStepIsLinear(x, y); }
  }

  lemma CrcBytesClimb()
    ensures BytesClimb(CRC)
  {
    forall b ensures Iterate(BitStep, 8, Mid(b)) == Top(b) && Iterate(BitStep, 8, Low(b)) == Mid(b) {
      BytesReachTheTop(b);
    }
  }

  /** Two messages that differ only inside a window of at most three adjacent
      bytes have the same CRC only if they are equal. */
  lemma BurstsAreDetected(before: seq<byte>, u: seq<byte>, v: seq<byte>, after: seq<byte>)
    requires |u| == |v| <= 3
    requires Remainder(before + u + after) == Remainder(before + v + after)
    ensures u == v
  {
    CrcIsLawful();
    BurstsAreTold(CRC, INIT, before, u, v, after);
  }

  lemma RemainderFits(data: seq<byte>)
    ensures Fits(Remainder(data))
  {
    CrcIsClosed();
    RunFits(CRC, INIT, data);
  }
}
