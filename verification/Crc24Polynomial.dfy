/**
 The CRC-24 register is a polynomial remainder: reading the message as a
 polynomial over GF(2), it is what division by the generator of section 6.1 of
 RFC 4880 leaves of INIT * x^(8n) + message * x^24.
 */
module Crc24Polynomial {
  import opened Gf2Polynomials
  import opened ShiftRegister
  import opened Crc24

  /** The terms of 0x1864CFB. */
  const G: Poly := {24, 23, 18, 17, 14, 11, 10, 7, 6, 5, 4, 3, 1, 0}

  /** The bits of a byte, lowest first. */
  datatype Octet = Octet(b0: bool, b1: bool, b2: bool, b3: bool, b4: bool, b5: bool, b6: bool, b7: bool)
  {
    predicate At(i: nat)
      requires i < 8
    {
      if i < 4 then (if i < 2 then (if i == 0 then b0 else b1) else if i == 2 then b2 else b3)
      else if i < 6 then (if i == 4 then b4 else b5) else if i == 6 then b6 else b7
    }
  }

  predicate Has(b: byte, mask: byte) {
    b & mask != 0
  }

  function OctetOf(b: byte): Octet {
    Octet(Has(b, 0x1), Has(b, 0x2), Has(b, 0x4), Has(b, 0x8),
          Has(b, 0x10), Has(b, 0x20), Has(b, 0x40), Has(b, 0x80))
  }

  /** The low 24 bits of a word. */
  datatype Triple = Triple(low: Octet, middle: Octet, high: Octet)
  {
    predicate At(i: nat)
      requires i < 24
    {
      if i < 8 then low.At(i) else if i < 16 then middle.At(i - 8) else high.At(i - 16)
    }
  }

  function LowByte(w: bv32): byte { (w & 0xFF) as bv8 }

  function MiddleByte(w: bv32): byte { ((w >> 8) & 0xFF) as bv8 }

  function HighByte(w: bv32): byte { ((w >> 16) & 0xFF) as bv8 }

  function TripleOf(w: bv32): Triple {
    Triple(OctetOf(LowByte(w)), OctetOf(MiddleByte(w)), OctetOf(HighByte(w)))
  }

  /** Bits as coefficients. */
  function TripleTerms(t: Triple): Poly {
    set i: nat | i < 24 && t.At(i)
  }

  function OctetTerms(t: Octet): Poly {
    set i: nat | i < 8 && t.At(i)
  }

  function PolyOf(w: bv32): Poly {
    TripleTerms(TripleOf(w))
  }

  /** The bits of a message, the last bit of the last byte being the constant
      term. */
  function MessagePoly(data: seq<byte>): Poly {
    set e: nat | e < 8 * |data| && OctetOf(data[|data| - 1 - e / 8]).At(e % 8)
  }

  function Dividend(data: seq<byte>): Poly {
    Add(Shift(PolyOf(INIT), 8 * |data|), Shift(MessagePoly(data), 24))
  }

  // ----- One step --------------------------------------------------------------------

  function LowStep(l: Octet, t: bool): Octet {
    Octet(t, l.b0 != t, l.b1, l.b2 != t, l.b3 != t, l.b4 != t, l.b5 != t, l.b6 != t)
  }

  function MiddleStep(c: bool, m: Octet, t: bool): Octet {
    Octet(c, m.b0, m.b1 != t, m.b2 != t, m.b3, m.b4, m.b5 != t, m.b6)
  }

  function HighStep(c: bool, h: Octet): Octet {
    Octet(c, h.b0 != h.b7, h.b1 != h.b7, h.b2, h.b3, h.b4, h.b5, h.b6 != h.b7)
  }

  lemma LowByteOfStep(x: bv32)
    requires Fits(x)
    ensures OctetOf(LowByte(BitStep(x))) == LowStep(OctetOf(LowByte(x)), OctetOf(HighByte(x)).b7)
  {
  }

  lemma MiddleByteOfStep(x: bv32)
    requires Fits(x)
    ensures OctetOf(MiddleByte(BitStep(x))) ==
            MiddleStep(OctetOf(LowByte(x)).b7, OctetOf(MiddleByte(x)), OctetOf(HighByte(x)).b7)
  {
  }

  lemma HighByteOfStep(x: bv32)
    requires Fits(x)
    ensures OctetOf(HighByte(BitStep(x))) == HighStep(OctetOf(MiddleByte(x)).b7, OctetOf(HighByte(x)))
  {
  }

  /** One step on the bits: shift up, and add the generator if the top bit
      fell out. */
  function TripleStep(t: Triple): Triple {
    Triple(LowStep(t.low, t.high.b7), MiddleStep(t.low.b7, t.middle, t.high.b7), HighStep(t.middle.b7, t.high))
  }

  lemma BitsOfStep(x: bv32)
    requires Fits(x)
    ensures TripleOf(BitStep(x)) == TripleStep(TripleOf(x))
  {
    LowByteOfStep(x);
    MiddleByteOfStep(x);
    HighByteOfStep(x);
  }

  lemma TripleStepAt(t: Triple, i: nat)
    requires i < 24
    ensures TripleStep(t).At(i) <==> (i > 0 && t.At(i - 1)) != (t.At(23) && i in G)
  {
  }

  lemma StepIsCongruent(t: Triple)
    ensures Congruent(Shift(TripleTerms(t), 1), TripleTerms(TripleStep(t)), G)
  {
    var p, q := Shift(TripleTerms(t), 1), TripleTerms(TripleStep(t));
    var carry := if t.At(23) then G else {};
    forall j: nat ensures j in Add(p, q) <==> j in carry {
      ShiftMember(TripleTerms(t), 1, j);
      if j < 24 {
        TripleStepAt(t, j);
      }
    }
    assert Add(p, q) == carry;
    ProductOfOne(G);
    ProductOfZero(G);
  }

  lemma {:induction false} StepsAreCongruent(n: nat, x: bv32)
    requires Fits(x)
    ensures Congruent(Shift(PolyOf(x), n), PolyOf(Iterate(BitStep, n, x)), G)
  {
    if n == 0 {
      assert Shift(PolyOf(x), 0) == PolyOf(x);
      CongruentRefl(PolyOf(x), G);
    } else {
      StepsAreCongruent(n - 1, x);
      var y := Iterate(BitStep, n - 1, x);
      CongruentShift(Shift(PolyOf(x), n - 1), PolyOf(y), 1, G);
      ShiftOfShift(PolyOf(x), n - 1, 1);
      CrcIsClosed();
      IterateFits(CRC, n - 1, x);
      BitsOfStep(y);
      StepIsCongruent(TripleOf(y));
      CongruentTrans(Shift(PolyOf(x), n), Shift(PolyOf(y), 1), PolyOf(BitStep(y)), G);
    }
  }

  // ----- One byte ---------------------------------------------------------------------

  function BytePoly(b: byte): Poly {
    OctetTerms(OctetOf(b))
  }

  lemma LowByteOfMix(x: bv32, b: byte)
    ensures LowByte(Xor(x, Top(b))) == LowByte(x)
  {
  }

  lemma MiddleByteOfMix(x: bv32, b: byte)
    ensures MiddleByte(Xor(x, Top(b))) == MiddleByte(x)
  {
  }

  lemma HighByteOfMix(x: bv32, b: byte)
    ensures HighByte(Xor(x, Top(b))) == HighByte(x) ^ b
  {
  }

  predicate Differ(a: bool, b: bool) {
    a != b
  }

  function XorOctets(s: Octet, t: Octet): Octet {
    Octet(Differ(s.b0, t.b0), Differ(s.b1, t.b1), Differ(s.b2, t.b2), Differ(s.b3, t.b3),
          Differ(s.b4, t.b4), Differ(s.b5, t.b5), Differ(s.b6, t.b6), Differ(s.b7, t.b7))
  }

  lemma BitOfXor(a: byte, b: byte, m: byte)
    requires m & (m - 1) == 0
    ensures Has(a ^ b, m) <==> Differ(Has(a, m), Has(b, m))
  {
  }

  lemma BitsOfXor(a: byte, b: byte)
    ensures OctetOf(a ^ b) == XorOctets(OctetOf(a), OctetOf(b))
  {
    LowBitsOfXor(a, b);
    HighBitsOfXor(a, b);
  }

  lemma LowBitsOfXor(a: byte, b: byte)
    ensures var o, s, t := OctetOf(a ^ b), OctetOf(a), OctetOf(b);
      o.b0 == Differ(s.b0, t.b0) && o.b1 == Differ(s.b1, t.b1)
      && o.b2 == Differ(s.b2, t.b2) && o.b3 == Differ(s.b3, t.b3)
  {
    BitOfXor(a, b, 0x1);
    BitOfXor(a, b, 0x2);
    BitOfXor(a, b, 0x4);
    BitOfXor(a, b, 0x8);
  }

  lemma HighBitsOfXor(a: byte, b: byte)
    ensures var o, s, t := OctetOf(a ^ b), OctetOf(a), OctetOf(b);
      o.b4 == Differ(s.b4, t.b4) && o.b5 == Differ(s.b5, t.b5)
      && o.b6 == Differ(s.b6, t.b6) && o.b7 == Differ(s.b7, t.b7)
  {
    BitOfXor(a, b, 0x10);
    BitOfXor(a, b, 0x20);
    BitOfXor(a, b, 0x40);
    BitOfXor(a, b, 0x80);
  }

  lemma XorOctetsAt(s: Octet, t: Octet, i: nat)
    requires i < 8
    ensures XorOctets(s, t).At(i) <==> s.At(i) != t.At(i)
  {
    if i < 4 {
      if i < 2 {
        assert i == 0 || i == 1;
      } else {
        assert i == 2 || i == 3;
      }
    } else if i < 6 {
      assert i == 4 || i == 5;
    } else {
      assert i == 6 || i == 7;
    }
  }

  lemma MixIsSum(w: Triple, t: Octet)
    ensures TripleTerms(w.(high := XorOctets(w.high, t))) == Add(TripleTerms(w), Shift(OctetTerms(t), 16))
  {
    var w' := w.(high := XorOctets(w.high, t));
    forall j: nat ensures j in TripleTerms(w') <==> j in Add(TripleTerms(w), Shift(OctetTerms(t), 16)) {
      TermOfMix(w, t, j);
    }
  }

  lemma TermOfMix(w: Triple, t: Octet, j: nat)
    ensures j in TripleTerms(w.(high := XorOctets(w.high, t))) <==>
      (j in TripleTerms(w)) != (j in Shift(OctetTerms(t), 16))
  {
    ShiftMember(OctetTerms(t), 16, j);
    if 16 <= j < 24 {
      XorOctetsAt(w.high, t, j - 16);
    }
  }

  lemma PolyOfMix(x: bv32, b: byte)
    ensures PolyOf(Xor(x, Top(b))) == Add(PolyOf(x), Shift(BytePoly(b), 16))
  {
    LowByteOfMix(x, b);
    MiddleByteOfMix(x, b);
    HighByteOfMix(x, b);
    BitsOfXor(HighByte(x), b);
    MixIsSum(TripleOf(x), OctetOf(b));
  }

  lemma MessageStep(data: seq<byte>)
    requires data != []
    ensures
      var k := |data| - 1;
      MessagePoly(data) == Add(Shift(MessagePoly(data[..k]), 8), BytePoly(data[k]))
  {
    var k := |data| - 1;
    forall e: nat
      ensures e in MessagePoly(data) <==> e in Add(Shift(MessagePoly(data[..k]), 8), BytePoly(data[k]))
    {
      ShiftMember(MessagePoly(data[..k]), 8, e);
      if e >= 8 {
        TermOfFront(data, e);
      } else {
        TermOfLast(data, e);
      }
    }
  }

  lemma TermOfFront(data: seq<byte>, e: nat)
    requires data != [] && e >= 8
    ensures e in MessagePoly(data) <==> e - 8 in MessagePoly(data[..|data| - 1])
  {
    assert (e - 8) / 8 == e / 8 - 1 && (e - 8) % 8 == e % 8;
    if e < 8 * |data| {
      var k := |data| - 1;
      assert data[..k][k - 1 - (e - 8) / 8] == data[k - e / 8];
    }
  }

  lemma TermOfLast(data: seq<byte>, e: nat)
    requires data != [] && e < 8
    ensures e in MessagePoly(data) <==> e in BytePoly(data[|data| - 1])
  {
    assert e / 8 == 0 && e % 8 == e;
  }

  lemma DividendStep(data: seq<byte>)
    requires data != []
    ensures
      var k := |data| - 1;
      Dividend(data) == Add(Shift(Dividend(data[..k]), 8), Shift(BytePoly(data[k]), 24))
  {
    var k := |data| - 1;
    MessageStep(data);
    SumStep(PolyOf(INIT), MessagePoly(data[..k]), BytePoly(data[k]), 8 * k);
  }

  /** Two sums shifted up by one byte. */
  lemma SumStep(i: Poly, m: Poly, b: Poly, n: nat)
    ensures Add(Shift(i, n + 8), Shift(Add(Shift(m, 8), b), 24)) ==
            Add(Shift(Add(Shift(i, n), Shift(m, 24)), 8), Shift(b, 24))
  {
    ShiftOfSum(Shift(m, 8), b, 24);
    ShiftOfShift(m, 8, 24);
    ShiftOfSum(Shift(i, n), Shift(m, 24), 8);
    ShiftOfShift(i, n, 8);
    ShiftOfShift(m, 24, 8);
    AddIsAssociative(Shift(i, n + 8), Shift(m, 32), Shift(b, 24));
  }

  lemma AddIsAssociative(p: Poly, q: Poly, r: Poly)
    ensures Add(p, Add(q, r)) == Add(Add(p, q), r)
  {
  }

  // ----- The whole message -------------------------------------------------------------

  lemma {:induction false} RegisterIsCongruent(data: seq<byte>)
    ensures Fits(Remainder(data))
    ensures Congruent(Dividend(data), PolyOf(Remainder(data)), G)
  {
    CrcIsClosed();
    RunFits(CRC, INIT, data);
    if data == [] {
      assert MessagePoly(data) == {};
      assert Shift(PolyOf(INIT), 0) == PolyOf(INIT);
      assert Dividend(data) == PolyOf(INIT);
      CongruentRefl(PolyOf(INIT), G);
    } else {
      var k := |data| - 1;
      var front, b := data[..k], data[k];
      RegisterIsCongruent(front);
      var d, r := Dividend(front), Remainder(front);
      var t := Shift(BytePoly(b), 24);
      CongruentShift(d, PolyOf(r), 8, G);
      CongruentAdd(Shift(d, 8), Shift(PolyOf(r), 8), t, G);
      DividendStep(data);
      ByteIsCongruent(r, b);
      CongruentTrans(Dividend(data), Add(Shift(PolyOf(r), 8), t), PolyOf(Remainder(data)), G);
    }
  }

  lemma ByteIsCongruent(r: bv32, b: byte)
    requires Fits(r)
    ensures Congruent(Add(Shift(PolyOf(r), 8), Shift(BytePoly(b), 24)), PolyOf(ByteStep(CRC, r, b)), G)
  {
    MixFits(r, b);
    PolyOfMix(r, b);
    StepsAreCongruent(8, Xor(r, Top(b)));
    ShiftOfSum(PolyOf(r), Shift(BytePoly(b), 16), 8);
    ShiftOfShift(BytePoly(b), 16, 8);
  }

  /** The register is the remainder, and any other polynomial of degree below 24
      that division could leave is the same one. */
  lemma ChecksumIsTheRemainder(data: seq<byte>, r: Poly)
    ensures IsRemainder(r, Dividend(data), G, 24) <==> r == PolyOf(Remainder(data))
  {
    RegisterIsCongruent(data);
    if IsRemainder(r, Dividend(data), G, 24) {
      RemainderIsUnique(r, PolyOf(Remainder(data)), Dividend(data), G, 24);
    }
  }
}
