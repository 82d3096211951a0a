/**
  The CRC-CCITT of cal2p54.c: a table lookup per byte, accumulated over the pieces of
  an EEPROM image and appended, complemented, low byte first.
 */
module CrcCcitt {
  import opened Words
  import opened Crc
  import opened CcittTable
  import opened Nibbles

  function CcittByte(crc: nat, c: byte): nat {
    Xor(crc / 256, At(Xor(crc, c) % 256))
  }

  /** Shifting zeros through a word whose low `n` bits are zero only moves it down. */
  lemma {:induction false} PlainShift(high: nat, n: nat)
    ensures Run(POLY, Pow2(n) * high, Zeros(n)) == high
    decreases n
  {
    if n == 0 {
    } else {
      hide Xor;
      Pow2Double(n, high);
      assert Zeros(n)[0] == false && Zeros(n)[1..] == Zeros(n - 1);
      assert Step(POLY, Pow2(n) * high, false) == Pow2(n - 1) * high;
      PlainShift(high, n - 1);
    }
  }

  lemma RunZeros8(word: nat)
    ensures Run(POLY, word, Zeros(8)) == Shift8(word)
  {
  }

  /** The table step is eight turns of the bit-at-a-time register. */
  lemma ByteIsEightTurns(crc: nat, c: byte)
    ensures CcittByte(crc, c) == Checksum(POLY, crc, [c])
  {
    hide At, Shift8, WordBits, Run;
    var folded := Xor(crc, c);
    var low, high := folded % 256, folded / 256;
    assert Pow2(8) == 256;
    assert Bits([c]) == WordBits(c, 8) + Bits([]) == WordBits(c, 8);
    FoldWord(POLY, crc, c, 8);
    XorAboveByte(crc, c);
    XorDisjoint(low, high, 8);
    assert folded == low + Pow2(8) * high;
    RunLinear(POLY, low, Pow2(8) * high, Zeros(8), Zeros(8));
    ZerosAgree(8);
    PlainShift(high, 8);
    RunZeros8(low);
    AtIsShift8(low);
    XorComm(Shift8(low), high);
  }

  lemma {:induction false} ZerosAgree(n: nat)
    ensures Differences(Zeros(n), Zeros(n)) == Zeros(n)
    decreases n
  {
    if n == 0 {
    } else {
      assert Differences(Zeros(n), Zeros(n))[1..] == Differences(Zeros(n)[1..], Zeros(n)[1..]);
      ZerosAgree(n - 1);
      assert Zeros(n)[1..] == Zeros(n - 1);
      assert Differences(Zeros(n), Zeros(n)) == [false] + Differences(Zeros(n - 1), Zeros(n - 1));
    }
  }

  method Compute(crc0: nat, buffer: seq<byte>) returns (crc: nat)
    ensures crc == Checksum(POLY, crc0, buffer)
  {
    crc := crc0;
    var i := 0;
    assert buffer[..0] == [];
    while i < |buffer|
      invariant 0 <= i <= |buffer|
      invariant crc == Checksum(POLY, crc0, buffer[..i])
    {
      ByteIsEightTurns(crc, buffer[i]);
      ChecksumConcat(POLY, crc0, buffer[..i], [buffer[i]]);
      assert buffer[..i + 1] == buffer[..i] + [buffer[i]];
      crc := CcittByte(crc, buffer[i]);
      i := i + 1;
    }
    assert buffer[..i] == buffer;
  }

  // ---- The EEPROM image ----

  function Concat(pieces: seq<seq<byte>>): seq<byte> {
    if pieces == [] then [] else Concat(pieces[..|pieces| - 1]) + pieces[|pieces| - 1]
  }

  /** The complemented register, low byte first. */
  function Trailer(crc: nat): seq<byte>
    requires crc < 0x1_0000
  {
    var complement := 0xFFFF - crc;
    [complement % 256, complement / 256]
  }

  /**
    The output of generate_eeprom: the wrapper, which is not covered by the checksum,
    the covered pieces, and the checksum.
   */
  method GenerateEeprom(wrapper: seq<byte>, pieces: seq<seq<byte>>) returns (out: seq<byte>)
    ensures Checksum(POLY, 0xFFFF, Concat(pieces)) < 0x1_0000
    ensures out == wrapper + Concat(pieces) + Trailer(Checksum(POLY, 0xFFFF, Concat(pieces)))
  {
    var crc := 0xFFFF;
    out := wrapper;
    var i := 0;
    while i < |pieces|
      invariant 0 <= i <= |pieces|
      invariant crc == Checksum(POLY, 0xFFFF, Concat(pieces[..i]))
      invariant out == wrapper + Concat(pieces[..i])
    {
      ghost var covered := Concat(pieces[..i]);
      ChecksumConcat(POLY, 0xFFFF, covered, pieces[i]);
      assert pieces[..i + 1][..i] == pieces[..i];
      crc := Compute(crc, pieces[i]);
      out := out + pieces[i];
      assert wrapper + covered + pieces[i] == wrapper + (covered + pieces[i]);
      i := i + 1;
    }
    assert pieces[..i] == pieces;
    Fits(Concat(pieces));
    crc := 0xFFFF - crc;
    out := out + [crc % 256, crc / 256];
  }

  lemma Fits(data: seq<byte>)
    ensures Checksum(POLY, 0xFFFF, data) < 0x1_0000
  {
    PolyDegree();
    RunBelow(POLY, 16, 0xFFFF, Bits(data));
  }

  lemma PolyDegree()
    ensures Degree(POLY, 16) && Pow2(16) == 0x1_0000
  {
    assert Pow2(8) == 256;
    Pow2Add(8, 8);
    assert Pow2(16) == 2 * Pow2(15);
  }

  // ---- The residue ----

  const RESIDUE := 0xF0B8

  /** Complementing a word is exclusive OR with all ones. */
  lemma {:induction false} XorComplement(w: nat, n: nat)
    requires w < Pow2(n)
    ensures Xor(w, Pow2(n) - 1 - w) == Pow2(n) - 1
    decreases n
  {
    if n == 0 {
    } else {
      var c := Pow2(n) - 1 - w;
      XorHalves(w, c);
      assert c / 2 == Pow2(n - 1) - 1 - w / 2 && c % 2 != w % 2;
      XorComplement(w / 2, n - 1);
    }
  }

  function After(w: Word, n: nat): Word
    decreases n
  {
    if n == 0 then w else After(w.Next(), n - 1)
  }

  lemma {:induction false} AfterValue(w: Word, n: nat)
    ensures Run(POLY, w.Value(), Zeros(n)) == After(w, n).Value()
    decreases n
  {
    if n == 0 {
    } else {
      w.NextValue();
      assert Zeros(n)[1..] == Zeros(n - 1);
      AfterValue(w.Next(), n - 1);
    }
  }

  lemma ResidueOfOnes()
    ensures Run(POLY, 0xFFFF, Zeros(16)) == RESIDUE
  {
    var w0 := Word(Nibble(true, true, true, true), Nibble(true, true, true, true),
                  Nibble(true, true, true, true), Nibble(true, true, true, true));
    var w4 := Word(Nibble(false, false, false, false), Nibble(true, true, true, false),
                  Nibble(false, false, false, true), Nibble(true, true, true, true));
    var w8 := Word(Nibble(true, true, true, false), Nibble(false, false, false, true),
                  Nibble(true, true, true, true), Nibble(false, false, false, false));
    var w12 := Word(Nibble(true, true, true, true), Nibble(true, true, true, false),
                  Nibble(true, true, false, false), Nibble(true, true, true, false));
    var w16 := Word(Nibble(false, false, false, true), Nibble(true, true, false, true),
                  Nibble(false, false, false, false), Nibble(true, true, true, true));
    AfterFour(w0, 16);
    AfterFour(w4, 12);
    AfterFour(w8, 8);
    AfterFour(w12, 4);
    AfterValue(w0, 16);
    w0.SumIsValue();
    w16.SumIsValue();
  }

  lemma AfterFour(w: Word, n: nat)
    requires n >= 4
    ensures After(w, n) == After(w.Next().Next().Next().Next(), n - 4)
  {
    hide Word.Next;
    var w2 := w.Next().Next();
    assert After(w, n) == After(w.Next(), n - 1) == After(w2, n - 2);
    assert After(w2, n - 2) == After(w2.Next(), n - 3) == After(w2.Next().Next(), n - 4);
  }

  lemma TrailerIs(crc: nat)
    requires crc < 0x1_0000
    ensures FromLe(Trailer(crc)) == 0xFFFF - crc
  {
    var trailer := Trailer(crc);
    assert trailer[1..] == [trailer[1]] && trailer[1..][1..] == [];
    assert FromLe(trailer[1..]) == trailer[1];
  }

  /** A receiver that runs the same register over the data and its trailer always ends in 0xF0B8. */
  lemma Residue(data: seq<byte>)
    ensures Checksum(POLY, 0xFFFF, data) < 0x1_0000
    ensures Checksum(POLY, 0xFFFF, data + Trailer(Checksum(POLY, 0xFFFF, data))) == RESIDUE
  {
    Fits(data);
    var crc := Checksum(POLY, 0xFFFF, data);
    var trailer := Trailer(crc);
    ChecksumConcat(POLY, 0xFFFF, data, trailer);
    TrailerIs(crc);
    FoldTrailer(POLY, crc, trailer);
    PolyDegree();
    XorComplement(crc, 16);
    ResidueOfOnes();
  }

  /** A burst of at most 16 bits, in the data or the trailer, always spoils the residue. */
  lemma BurstSpoilsResidue(data: seq<byte>, received: seq<byte>, k: nat)
    requires Checksum(POLY, 0xFFFF, data) < 0x1_0000
    requires var sent := data + Trailer(Checksum(POLY, 0xFFFF, data));
             && |received| == |sent| && received != sent
             && forall i :: 0 <= i < 8 * |sent| && !(k <= i < k + 16) ==> Bits(received)[i] == Bits(sent)[i]
    ensures Checksum(POLY, 0xFFFF, received) != RESIDUE
  {
    Residue(data);
    PolyDegree();
    BurstDetected(POLY, 16, 0xFFFF, received, data + Trailer(Checksum(POLY, 0xFFFF, data)), k);
  }

  lemma PolyIsOdd()
    ensures OddOnes(POLY)
  {
    assert !OddOnes(0) && OddOnes(1) && OddOnes(2) && OddOnes(4) && OddOnes(8) && OddOnes(0x10);
    assert !OddOnes(0x21) && !OddOnes(0x42) && !OddOnes(0x84) && !OddOnes(0x108);
    assert !OddOnes(0x210) && !OddOnes(0x420) && !OddOnes(0x840);
    assert OddOnes(0x1081) && OddOnes(0x2102) && OddOnes(0x4204);
  }

  /** An odd number of flipped bits, anywhere in the data or the trailer, always spoils the residue. */
  lemma OddErrorSpoilsResidue(data: seq<byte>, received: seq<byte>)
    requires Checksum(POLY, 0xFFFF, data) < 0x1_0000
    requires var sent := data + Trailer(Checksum(POLY, 0xFFFF, data));
             |received| == |sent| && Flips(Bits(received), Bits(sent)) % 2 == 1
    ensures Checksum(POLY, 0xFFFF, received) != RESIDUE
  {
    Residue(data);
    PolyIsOdd();
    OddErrorDetected(POLY, 0xFFFF, received, data + Trailer(Checksum(POLY, 0xFFFF, data)));
  }
}
