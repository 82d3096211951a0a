/** The checksum of the nine ASCII digits, worked out turn by turn. */
module Crc32Known {
  import opened Words
  import opened Crc
  import opened Nibbles
  import opened Crc32Check
  import Crc32

  // ---- Hexadecimal digits ----

  const D0 := Nibble(false, false, false, false)
  const D1 := Nibble(true, false, false, false)
  const D2 := Nibble(false, true, false, false)
  const D3 := Nibble(true, true, false, false)
  const D4 := Nibble(false, false, true, false)
  const D5 := Nibble(true, false, true, false)
  const D6 := Nibble(false, true, true, false)
  const D7 := Nibble(true, true, true, false)
  const D8 := Nibble(false, false, false, true)
  const D9 := Nibble(true, false, false, true)
  const DA := Nibble(false, true, false, true)
  const DB := Nibble(true, true, false, true)
  const DC := Nibble(false, false, true, true)
  const DD := Nibble(true, false, true, true)
  const DE := Nibble(false, true, true, true)
  const DF := Nibble(true, true, true, true)

  /** Eight turns, one after the other, make a byte. */
  lemma EightTurns(w0: Register, w1: Register, w2: Register, w3: Register, w4: Register, w5: Register, w6: Register,
                   w7: Register, w8: Register, low: Nibble, high: Nibble)
    requires w0.Next(low.b0) == w1 && w1.Next(low.b1) == w2 && w2.Next(low.b2) == w3 && w3.Next(low.b3) == w4
    requires w4.Next(high.b0) == w5 && w5.Next(high.b1) == w6 && w6.Next(high.b2) == w7 && w7.Next(high.b3) == w8
    ensures NextByte(w0, low, high) == w8
  {
    hide Register.Next;
  }

  // ---- The digits, one at a time: the registers with their lowest digit first ----

  lemma Digit1()
    ensures NextByte(Register(DF, DF, DF, DF, DF, DF, DF, DF), D1, D3)
         == Register(D8, D4, D0, D1, D3, D2, DC, D7)
  {
    hide NextByte;
    var w0 := Register(DF, DF, DF, DF, DF, DF, DF, DF);
    var w1 := Register(DF, DF, DF, DF, DF, DF, DF, D7);
    var w2 := Register(DF, DD, DC, D7, D7, D4, D2, DD);
    var w3 := Register(DF, D4, DD, D3, DB, D9, D4, D8);
    var w4 := Register(D7, D8, DD, D1, D5, DF, DF, DA);
    var w5 := Register(D3, DC, DE, D8, DA, DF, D7, D5);
    var w6 := Register(D1, D6, D7, D4, DD, DF, DB, D2);
    var w7 := Register(D0, D9, D0, D2, D6, D4, D8, DF);
    var w8 := Register(D8, D4, D0, D1, D3, D2, DC, D7);
    EightTurns(w0, w1, w2, w3, w4, w5, w6, w7, w8, D1, D3);
  }

  lemma Digit2()
    ensures NextByte(Register(D8, D4, D0, D1, D3, D2, DC, D7), D2, D3)
         == Register(D2, D3, DB, DB, DC, DA, D0, DB)
  {
    hide NextByte;
    var w0 := Register(D8, D4, D0, D1, D3, D2, DC, D7);
    var w1 := Register(D4, D2, D8, D8, D1, D1, DE, D3);
    var w2 := Register(D2, D3, D7, D4, D0, DB, D2, DF);
    var w3 := Register(D9, D9, D3, D2, D8, D5, D9, D7);
    var w4 := Register(DC, DE, D2, D9, D4, D1, D1, DD);
    var w5 := Register(D6, D5, DA, DC, D2, D3, D5, D8);
    var w6 := Register(DB, D0, D6, DE, D1, D2, DF, DA);
    var w7 := Register(D5, D2, D0, D7, D8, D2, DA, DB);
    var w8 := Register(D2, D3, DB, DB, DC, DA, D0, DB);
    EightTurns(w0, w1, w2, w3, w4, w5, w6, w7, w8, D2, D3);
  }

  lemma Digit3()
    ensures NextByte(Register(D2, D3, DB, DB, DC, DA, D0, DB), D3, D3)
         == Register(DD, D2, DC, D9, D7, DB, D7, D7)
  {
    hide NextByte;
    var w0 := Register(D2, D3, DB, DB, DC, DA, D0, DB);
    var w1 := Register(D9, DB, DE, DD, DE, DE, D5, DB);
    var w2 := Register(DC, D5, DF, D6, D7, DF, DA, D5);
    var w3 := Register(DE, DA, D7, DB, DB, D7, DD, D2);
    var w4 := Register(D7, DD, DB, DD, DD, DB, D6, D1);
    var w5 := Register(DB, DE, DD, DE, DE, D5, DB, D0);
    var w6 := Register(D5, DF, D6, D7, DF, DA, D5, D0);
    var w7 := Register(DA, D5, D8, D3, DF, D6, DF, DE);
    var w8 := Register(DD, D2, DC, D9, D7, DB, D7, D7);
    EightTurns(w0, w1, w2, w3, w4, w5, w6, w7, w8, D3, D3);
  }

  lemma Digit4()
    ensures NextByte(Register(DD, D2, DC, D9, D7, DB, D7, D7), D4, D3)
         == Register(DC, D5, DF, D1, DC, D1, D4, D6)
  {
    hide NextByte;
    var w0 := Register(DD, D2, DC, D9, D7, DB, D7, D7);
    var w1 := Register(D6, D3, DD, D4, D3, D6, D6, DD);
    var w2 := Register(DB, D9, D6, DA, D1, D3, DB, D6);
    var w3 := Register(DD, D4, D3, DD, D8, D9, D5, D3);
    var w4 := Register(D6, D8, DA, DE, D4, D7, D7, DF);
    var w5 := Register(D3, D6, D6, DF, D2, D0, D6, D9);
    var w6 := Register(D1, D3, DB, D7, D1, D0, DB, D4);
    var w7 := Register(D8, DB, DE, D3, D8, D3, D8, DC);
    var w8 := Register(DC, D5, DF, D1, DC, D1, D4, D6);
    EightTurns(w0, w1, w2, w3, w4, w5, w6, w7, w8, D4, D3);
  }

  lemma Digit5()
    ensures NextByte(Register(DC, D5, DF, D1, DC, D1, D4, D6), D5, D3)
         == Register(D3, DE, D5, DC, DA, D0, D4, D3)
  {
    hide NextByte;
    var w0 := Register(DC, D5, DF, D1, DC, D1, D4, D6);
    var w1 := Register(DE, D8, DC, D8, D6, DB, DF, DD);
    var w2 := Register(D7, D4, D6, D4, DB, DD, DF, D6);
    var w3 := Register(D3, D2, D3, DA, DD, DE, D7, D3);
    var w4 := Register(D1, DB, D2, D5, DE, D4, D6, DF);
    var w5 := Register(D8, D5, D9, D2, D7, D2, DB, D7);
    var w6 := Register(DC, D8, D7, D1, DB, D2, D0, DD);
    var w7 := Register(D6, DC, DB, D8, D5, D1, D8, D6);
    var w8 := Register(D3, DE, D5, DC, DA, D0, D4, D3);
    EightTurns(w0, w1, w2, w3, w4, w5, w6, w7, w8, D5, D3);
  }

  lemma Digit6()
    ensures NextByte(Register(D3, DE, D5, DC, DA, D0, D4, D3), D6, D3)
         == Register(DE, D9, DC, D2, DD, D8, D6, DF)
  {
    hide NextByte;
    var w0 := Register(D3, DE, D5, DC, DA, D0, D4, D3);
    var w1 := Register(D1, DD, D1, DE, DD, DB, D7, DF);
    var w2 := Register(D8, DE, D0, DF, DE, DD, DB, D7);
    var w3 := Register(D4, D5, DB, DF, D7, D5, D0, DD);
    var w4 := Register(DA, DA, DD, DF, DB, D2, D8, D6);
    var w5 := Register(D5, DF, DD, D7, DD, DA, D9, DD);
    var w6 := Register(DA, DF, DE, DB, D6, DD, DC, D6);
    var w7 := Register(DD, D7, DF, D5, DB, D6, D6, D3);
    var w8 := Register(DE, D9, DC, D2, DD, D8, D6, DF);
    EightTurns(w0, w1, w2, w3, w4, w5, w6, w7, w8, D6, D3);
  }

  lemma Digit7()
    ensures NextByte(Register(DE, D9, DC, D2, DD, D8, D6, DF), D7, D3)
         == Register(D0, D6, D6, D9, DC, DF, DF, DA)
  {
    hide NextByte;
    var w0 := Register(DE, D9, DC, D2, DD, D8, D6, DF);
    var w1 := Register(DF, D6, D5, D1, DE, DF, D6, D9);
    var w2 := Register(D7, DB, DA, D0, DF, D7, DB, D4);
    var w3 := Register(DB, D5, D5, D8, DF, DB, D5, D2);
    var w4 := Register(DD, D8, D1, D4, D7, D6, DF, DF);
    var w5 := Register(D6, DC, D0, DA, D3, DB, DF, D7);
    var w6 := Register(D3, D4, D3, D5, D1, D6, D2, DD);
    var w7 := Register(D1, D8, DA, D2, D8, D8, D4, D8);
    var w8 := Register(D0, D6, D6, D9, DC, DF, DF, DA);
    EightTurns(w0, w1, w2, w3, w4, w5, w6, w7, w8, D7, D3);
  }

  lemma Digit8()
    ensures NextByte(Register(D0, D6, D6, D9, DC, DF, DF, DA), D8, D3)
         == Register(D0, D5, D5, D2, DF, D1, D5, D6)
  {
    hide NextByte;
    var w0 := Register(D0, D6, D6, D9, DC, DF, DF, DA);
    var w1 := Register(D0, D3, DB, D4, DE, DF, D7, D5);
    var w2 := Register(D8, D9, D5, D2, DF, DF, DB, D2);
    var w3 := Register(DC, DC, D2, D9, DF, DF, D5, D1);
    var w4 := Register(D6, D4, DA, D4, D7, D4, D7, DE);
    var w5 := Register(D3, D0, D6, D2, DB, D1, DE, D9);
    var w6 := Register(D1, D0, D3, D9, DD, D0, DF, D4);
    var w7 := Register(D0, DA, DA, D4, DE, D3, DA, DC);
    var w8 := Register(D0, D5, D5, D2, DF, D1, D5, D6);
    EightTurns(w0, w1, w2, w3, w4, w5, w6, w7, w8, D8, D3);
  }

  lemma Digit9()
    ensures NextByte(Register(D0, D5, D5, D2, DF, D1, D5, D6), D9, D3)
         == Register(D9, DD, D6, DC, DB, D0, D4, D3)
  {
    hide NextByte;
    var w0 := Register(D0, D5, D5, D2, DF, D1, D5, D6);
    var w1 := Register(D8, D8, D1, D1, D7, D3, DF, DD);
    var w2 := Register(D4, DC, D8, D8, DB, D9, DF, D6);
    var w3 := Register(D2, D6, D4, DC, DD, DC, D7, D3);
    var w4 := Register(D1, D1, D1, D6, DE, D5, D6, DF);
    var w5 := Register(D8, D8, D0, D3, DF, D2, DB, D7);
    var w6 := Register(D4, D6, DB, D1, DF, D2, D0, DD);
    var w7 := Register(D2, DB, DD, D8, D7, D1, D8, D6);
    var w8 := Register(D9, DD, D6, DC, DB, D0, D4, D3);
    EightTurns(w0, w1, w2, w3, w4, w5, w6, w7, w8, D9, D3);
  }

  // ---- All of them ----

  function DigitNibble(n: nat): Nibble
    requires n < 10
  {
    match n
    case 0 => D0
    case 1 => D1
    case 2 => D2
    case 3 => D3
    case 4 => D4
    case 5 => D5
    case 6 => D6
    case 7 => D7
    case 8 => D8
    case 9 => D9
  }

  lemma DigitNibbleValue(n: nat)
    requires n < 10
    ensures DigitNibble(n).Value() == n && D3.Value() == 3
  {
  }

  /** The digits from 1 to `n` in ASCII. */
  function Digits(n: nat): (s: seq<byte>)
    requires n < 10
    ensures |s| == n
  {
    if n == 0 then [] else Digits(n - 1) + [0x30 + n]
  }

  /** The register behind each of the digits. */
  function Behind(n: nat): Register
    requires n < 10
  {
    match n
    case 0 => Register(DF, DF, DF, DF, DF, DF, DF, DF)
    case 1 => Register(D8, D4, D0, D1, D3, D2, DC, D7)
    case 2 => Register(D2, D3, DB, DB, DC, DA, D0, DB)
    case 3 => Register(DD, D2, DC, D9, D7, DB, D7, D7)
    case 4 => Register(DC, D5, DF, D1, DC, D1, D4, D6)
    case 5 => Register(D3, DE, D5, DC, DA, D0, D4, D3)
    case 6 => Register(DE, D9, DC, D2, DD, D8, D6, DF)
    case 7 => Register(D0, D6, D6, D9, DC, DF, DF, DA)
    case 8 => Register(D0, D5, D5, D2, DF, D1, D5, D6)
    case 9 => Register(D9, DD, D6, DC, DB, D0, D4, D3)
  }

  lemma NextDigit(n: nat)
    requires 0 < n < 10
    ensures NextByte(Behind(n - 1), DigitNibble(n), D3) == Behind(n)
  {
    hide NextByte;
    match n
    case 1 => Digit1();
    case 2 => Digit2();
    case 3 => Digit3();
    case 4 => Digit4();
    case 5 => Digit5();
    case 6 => Digit6();
    case 7 => Digit7();
    case 8 => Digit8();
    case 9 => Digit9();
  }

  lemma {:induction false} BehindDigits(n: nat)
    requires n < 10
    ensures Checksum(Crc32.POLY, Behind(0).Value(), Digits(n)) == Behind(n).Value()
  {
    hide NextByte, Behind, Register.Value, DigitNibble, Checksum, Nibble.Value;
    if n == 0 {
      NoDigits(Behind(0).Value());
    } else {
      BehindDigits(n - 1);
      NextDigit(n);
      DigitNibbleValue(n);
      NextByteValue(Behind(n - 1), DigitNibble(n), D3, 0x30 + n);
      ChecksumConcat(Crc32.POLY, Behind(0).Value(), Digits(n - 1), [0x30 + n]);
    }
  }

  lemma NoDigits(w: nat)
    ensures Checksum(Crc32.POLY, w, Digits(0)) == w
  {
  }

  lemma Ends()
    ensures Behind(0).Value() == 0xFFFF_FFFF && Behind(9).Value() == 0x340B_C6D9
  {
    hide Register.Value;
    RegisterValue(Behind(0));
    RegisterValue(Behind(9));
  }

  lemma NineDigits()
    ensures Digits(9) == [0x31, 0x32, 0x33, 0x34, 0x35, 0x36, 0x37, 0x38, 0x39]
  {
    assert Digits(3) == [0x31, 0x32, 0x33];
    assert Digits(6) == Digits(3) + [0x34, 0x35, 0x36];
  }

  /** The nine digits from a register of ones: the value that identifies this CRC. */
  lemma KnownChecksum()
    ensures Checksum(Crc32.POLY, 0xFFFF_FFFF, [0x31, 0x32, 0x33, 0x34, 0x35, 0x36, 0x37, 0x38, 0x39]) == 0x340B_C6D9
  {
    hide Checksum, Register.Value, Behind;
    BehindDigits(9);
    Ends();
    NineDigits();
  }

  /** The program computes it. */
  method ComputeKnown() returns (crc: nat)
    ensures crc == 0x340B_C6D9
  {
    hide Checksum;
    crc := Crc32.Compute(0xFFFF_FFFF, [0x31, 0x32, 0x33, 0x34, 0x35, 0x36, 0x37, 0x38, 0x39]);
    KnownChecksum();
  }
}
