/**
  The polynomial of module Crc32 by its terms, and a register that is turned bit by bit.
 */
module Crc32Check {
  import opened Words
  import opened Crc
  import opened Nibbles
  import Crc32

  // ---- The polynomial ----

  lemma FirstBitOf(w: nat, n: nat)
    ensures WordBits(w, n + 1) == [w % 2 == 1] + WordBits(w / 2, n)
  {
  }

  /** The bits of a word, four at a time. */
  lemma FourBits(w: nat, n: nat)
    ensures WordBits(w, n + 4)
         == [w % 2 == 1, w / 2 % 2 == 1, w / 4 % 2 == 1, w / 8 % 2 == 1] + WordBits(w / 16, n)
  {
    hide WordBits;
    FirstBitOf(w, n + 3);
    FirstBitOf(w / 2, n + 2);
    FirstBitOf(w / 4, n + 1);
    FirstBitOf(w / 8, n);
    assert w / 2 / 2 == w / 4 && w / 4 / 2 == w / 8 && w / 8 / 2 == w / 16;
  }

  /** The exponents of the generator polynomial below 32. */
  const TERMS := {0, 1, 2, 4, 5, 7, 8, 10, 11, 12, 16, 22, 23, 26}

  const POLY_BITS := [
    false, false, false, false, false, true, false, false, true, true, false, false, false, false, false, true,
    false, false, false, true, true, true, false, true, true, false, true, true, false, true, true, true]

  lemma NoBits(w: nat)
    ensures WordBits(w, 0) == []
  {
  }

  lemma LowBits()
    ensures WordBits(0xEDB8_8320, 32)
         == [false, false, false, false, false, true, false, false] + WordBits(0xED_B883, 24)
  {
    hide WordBits;
    FourBits(0xEDB8_8320, 28);
    FourBits(0xEDB_8832, 24);
  }

  lemma MiddleBits()
    ensures WordBits(0xED_B883, 24) == [true, true, false, false, false, false, false, true] + WordBits(0xEDB8, 16)
  {
    hide WordBits;
    FourBits(0xED_B883, 20);
    FourBits(0xE_DB88, 16);
  }

  lemma HighBits()
    ensures WordBits(0xEDB8, 16)
         == [false, false, false, true, true, true, false, true, true, false, true, true, false, true, true, true]
  {
    hide WordBits;
    FourBits(0xEDB8, 12);
    FourBits(0xEDB, 8);
    FourBits(0xED, 4);
    FourBits(0xE, 0);
    NoBits(0);
  }

  lemma PolyBits()
    ensures WordBits(Crc32.POLY, 32) == POLY_BITS
  {
    hide WordBits;
    LowBits();
    MiddleBits();
    HighBits();
  }

  /** Reflected: the bit for the power k of x is bit 31 - k. */
  lemma PolynomialTerms(k: nat)
    requires k < 32
    ensures WordBits(Crc32.POLY, 32)[31 - k] <==> k in TERMS
  {
    hide WordBits;
    PolyBits();
  }

  // ---- A register in eight pieces ----

  datatype Register =
    Register(n0: Nibble, n1: Nibble, n2: Nibble, n3: Nibble, n4: Nibble, n5: Nibble, n6: Nibble, n7: Nibble)
  {
    function Upper(): nat {
      n4.Above(n5.Above(n6.Above(n7.Above(0))))
    }

    function Value(): nat {
      n0.Above(n1.Above(n2.Above(n3.Above(Upper()))))
    }

    function Half(): Register {
      Register(Nibble(n0.b1, n0.b2, n0.b3, n1.b0), Nibble(n1.b1, n1.b2, n1.b3, n2.b0),
               Nibble(n2.b1, n2.b2, n2.b3, n3.b0), Nibble(n3.b1, n3.b2, n3.b3, n4.b0),
               Nibble(n4.b1, n4.b2, n4.b3, n5.b0), Nibble(n5.b1, n5.b2, n5.b3, n6.b0),
               Nibble(n6.b1, n6.b2, n6.b3, n7.b0), Nibble(n7.b1, n7.b2, n7.b3, false))
    }

    function Plus(o: Register): Register {
      Register(n0.Plus(o.n0), n1.Plus(o.n1), n2.Plus(o.n2), n3.Plus(o.n3),
               n4.Plus(o.n4), n5.Plus(o.n5), n6.Plus(o.n6), n7.Plus(o.n7))
    }

    /** One turn with the bit that is fed in. */
    function Next(bit: bool): Register {
      var f := n0.b0 != bit;
      Register(Nibble(n0.b1, n0.b2, n0.b3, n1.b0),
               Nibble(n1.b1, n1.b2 != f, n1.b3, n2.b0),
               Nibble(n2.b1 != f, n2.b2 != f, n2.b3, n3.b0),
               Nibble(n3.b1, n3.b2, n3.b3, n4.b0 != f),
               Nibble(n4.b1, n4.b2, n4.b3, n5.b0 != f),
               Nibble(n5.b1 != f, n5.b2 != f, n5.b3, n6.b0 != f),
               Nibble(n6.b1 != f, n6.b2, n6.b3 != f, n7.b0 != f),
               Nibble(n7.b1, n7.b2 != f, n7.b3 != f, f))
    }

    lemma NextIs(bit: bool)
      ensures Next(bit) == if n0.b0 != bit then Half().Plus(POLY_REGISTER) else Half()
    {
    }

    lemma UpperIsXor(o: Register)
      ensures Xor(Upper(), o.Upper()) == Plus(o).Upper()
    {
      hide Xor, Nibble.Above;
      n7.PlusIsXor(o.n7, 0, 0);
      n6.PlusIsXor(o.n6, n7.Above(0), o.n7.Above(0));
      n5.PlusIsXor(o.n5, n6.Above(n7.Above(0)), o.n6.Above(o.n7.Above(0)));
      n4.PlusIsXor(o.n4, n5.Above(n6.Above(n7.Above(0))), o.n5.Above(o.n6.Above(o.n7.Above(0))));
      NoXor();
    }

    lemma PlusIsXor(o: Register)
      ensures Xor(Value(), o.Value()) == Plus(o).Value()
    {
      hide Xor, Nibble.Above, Upper;
      var u, v := Upper(), o.Upper();
      UpperIsXor(o);
      n3.PlusIsXor(o.n3, u, v);
      n2.PlusIsXor(o.n2, n3.Above(u), o.n3.Above(v));
      n1.PlusIsXor(o.n1, n2.Above(n3.Above(u)), o.n2.Above(o.n3.Above(v)));
      n0.PlusIsXor(o.n0, n1.Above(n2.Above(n3.Above(u))), o.n1.Above(o.n2.Above(o.n3.Above(v))));
    }

    lemma HalfUpper()
      ensures Upper() == Digit(n4.b0, Half().Upper())
    {
      hide Digit, Nibble.Above;
      NoDigit();
      var h := Half();
      n7.Shifted(false, 0);
      n6.Shifted(n7.b0, h.n7.Above(0));
      n5.Shifted(n6.b0, h.n6.Above(h.n7.Above(0)));
      n4.Shifted(n5.b0, h.n5.Above(h.n6.Above(h.n7.Above(0))));
    }

    lemma HalfValue()
      ensures Value() == Digit(n0.b0, Half().Value())
    {
      hide Digit, Nibble.Above, Upper;
      HalfUpper();
      var h := Half();
      var u := h.Upper();
      n3.Shifted(n4.b0, u);
      n2.Shifted(n3.b0, h.n3.Above(u));
      n1.Shifted(n2.b0, h.n2.Above(h.n3.Above(u)));
      n0.Shifted(n1.b0, h.n1.Above(h.n2.Above(h.n3.Above(u))));
    }

    lemma NextValue(bit: bool)
      ensures Step(Crc32.POLY, Value(), bit) == Next(bit).Value()
    {
      hide Xor, Digit, Value, Half, Plus, Next;
      NextIs(bit);
      HalfValue();
      DigitHalves(n0.b0, Half().Value());
      PolyValue();
      Half().PlusIsXor(POLY_REGISTER);
    }
  }

  lemma NoXor()
    ensures Xor(0, 0) == 0
  {
  }

  /** x^32 + x^26 + x^23 + x^22 + x^16 + x^12 + x^11 + x^10 + x^8 + x^7 + x^5 + x^4 + x^2 + x + 1, reflected. */
  const POLY_REGISTER :=
    Register(Nibble(false, false, false, false), Nibble(false, true, false, false),
             Nibble(true, true, false, false), Nibble(false, false, false, true),
             Nibble(false, false, false, true), Nibble(true, true, false, true),
             Nibble(true, false, true, true), Nibble(false, true, true, true))

  lemma PolyValue()
    ensures POLY_REGISTER.Value() == Crc32.POLY
  {
    RegisterValue(POLY_REGISTER);
  }

  function Sum(r: Register): nat {
    r.n0.Value() + 0x10 * r.n1.Value() + 0x100 * r.n2.Value() + 0x1000 * r.n3.Value()
    + 0x1_0000 * r.n4.Value() + 0x10_0000 * r.n5.Value() + 0x100_0000 * r.n6.Value() + 0x1000_0000 * r.n7.Value()
  }

  lemma RegisterValue(r: Register)
    ensures r.Value() == Sum(r)
  {
    hide Nibble.Above, Nibble.Value;
    var a7 := r.n7.Above(0);
    var a6 := r.n6.Above(a7);
    var a5 := r.n5.Above(a6);
    var a4 := r.n4.Above(a5);
    var a3 := r.n3.Above(a4);
    var a2 := r.n2.Above(a3);
    var a1 := r.n1.Above(a2);
    r.n7.AboveIs(0);
    r.n6.AboveIs(a7);
    r.n5.AboveIs(a6);
    r.n4.AboveIs(a5);
    r.n3.AboveIs(a4);
    r.n2.AboveIs(a3);
    r.n1.AboveIs(a2);
    r.n0.AboveIs(a1);
  }

  // ---- A known checksum ----

  function NextFour(r: Register, n: Nibble): Register {
    r.Next(n.b0).Next(n.b1).Next(n.b2).Next(n.b3)
  }

  function NextByte(r: Register, low: Nibble, high: Nibble): Register {
    NextFour(NextFour(r, low), high)
  }

  lemma RunFour(w: nat, a: bool, b: bool, c: bool, d: bool)
    ensures var poly := Crc32.POLY;
            Run(poly, w, [a, b, c, d]) == Step(poly, Step(poly, Step(poly, Step(poly, w, a), b), c), d)
  {
    hide Step;
    var poly := Crc32.POLY;
    var w1 := Step(poly, w, a);
    var w2 := Step(poly, w1, b);
    var w3 := Step(poly, w2, c);
    var none: seq<bool> := [];
    assert [a, b, c, d][1..] == [b, c, d] && [b, c, d][1..] == [c, d] && [c, d][1..] == [d] && [d][1..] == none;
    assert Run(poly, w3, [d]) == Step(poly, w3, d);
    assert Run(poly, w2, [c, d]) == Run(poly, w3, [d]);
    assert Run(poly, w1, [b, c, d]) == Run(poly, w2, [c, d]);
  }

  function BitsOf(n: Nibble): (bits: seq<bool>)
    ensures |bits| == 4
  {
    [n.b0, n.b1, n.b2, n.b3]
  }

  lemma NextFourValue(r: Register, n: Nibble)
    ensures Run(Crc32.POLY, r.Value(), BitsOf(n)) == NextFour(r, n).Value()
  {
    hide Step, Register.Value, Register.Next, Run;
    var r1 := r.Next(n.b0);
    var r2 := r1.Next(n.b1);
    var r3 := r2.Next(n.b2);
    r.NextValue(n.b0);
    r1.NextValue(n.b1);
    r2.NextValue(n.b2);
    r3.NextValue(n.b3);
    RunFour(r.Value(), n.b0, n.b1, n.b2, n.b3);
  }

  lemma ByteBits(low: Nibble, high: Nibble, c: byte)
    requires c == low.Value() + 16 * high.Value()
    ensures WordBits(c, 8) == BitsOf(low) + BitsOf(high)
  {
    hide WordBits, Nibble.Value, BitsOf;
    var above: nat := high.Value();
    var w: nat := low.Value() + 16 * above;
    NibbleBits(low, above);
    NibbleBits(high, 0);
    assert above + 16 * 0 == above == w / 16;
    FourBits(w, 4);
    FourBits(above, 0);
    NoBits(above / 16);
  }

  lemma NibbleBits(n: Nibble, above: nat)
    ensures var w := n.Value() + 16 * above;
            && w / 16 == above
            && [w % 2 == 1, w / 2 % 2 == 1, w / 4 % 2 == 1, w / 8 % 2 == 1] == BitsOf(n)
  {
    hide Digit, Nibble.Value;
    n.AboveIs(above);
    var d3 := Digit(n.b3, above);
    var d2 := Digit(n.b2, d3);
    var d1 := Digit(n.b1, d2);
    DigitHalves(n.b0, d1);
    DigitHalves(n.b1, d2);
    DigitHalves(n.b2, d3);
    DigitHalves(n.b3, above);
  }

  lemma NextByteValue(r: Register, low: Nibble, high: Nibble, c: byte)
    requires c == low.Value() + 16 * high.Value()
    ensures Checksum(Crc32.POLY, r.Value(), [c]) == NextByte(r, low, high).Value()
  {
    hide Register.Value, NextFour, Run, BitsOf, WordBits, Nibble.Value;
    NextFourValue(r, low);
    NextFourValue(NextFour(r, low), high);
    ByteBits(low, high, c);
    assert Bits([c]) == WordBits(c, 8) + Bits([]) == WordBits(c, 8);
    RunConcat(Crc32.POLY, r.Value(), BitsOf(low), BitsOf(high));
  }
}
