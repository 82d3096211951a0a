/**
  The CRC-32 of calvaria.c: the reflected register of module Crc with the usual
  polynomial, and with no initial or final complement.
 */
module Crc32 {
  import opened Words
  import opened Crc

  const POLY := 0xEDB8_8320

  method Compute(crc0: nat, data: seq<byte>) returns (crc: nat)
    ensures crc == Checksum(POLY, crc0, data)
  {
    crc := crc0;
    for i := 0 to |data|
      invariant Checksum(POLY, crc, data[i..]) == Checksum(POLY, crc0, data)
    {
      var value := data[i];
      ghost var rest := Bits(data[i + 1..]);
      assert data[i..][1..] == data[i + 1..];
      var bit := 8;
      while bit > 0
        invariant 0 <= bit <= 8
        invariant Run(POLY, crc, WordBits(value, bit) + rest) == Checksum(POLY, crc0, data)
      {
        assert (WordBits(value, bit) + rest)[1..] == WordBits(value / 2, bit - 1) + rest;
        if crc % 2 != value % 2 {
          crc := Xor(crc / 2, POLY);
        } else {
          crc := crc / 2;
        }
        value := value / 2;
        bit := bit - 1;
      }
      assert WordBits(value, 0) + rest == rest;
    }
    assert data[|data|..] == [];
  }

  lemma PolyDegree()
    ensures Degree(POLY, 32) && Pow2(32) == 0x1_0000_0000
  {
    assert Pow2(8) == 256;
    hide Pow2;
    Pow2Add(8, 8);
    assert Pow2(16) == 0x1_0000;
    Pow2Add(16, 16);
    Pow2Seven();
    Pow2Add(8, 7);
    assert Pow2(15) == 0x8000;
    Pow2Add(16, 15);
  }

  lemma Pow2Seven()
    ensures Pow2(7) == 128
  {
  }

  lemma ChecksumBelow(crc: nat, data: seq<byte>)
    requires crc < 0x1_0000_0000
    ensures Checksum(POLY, crc, data) < 0x1_0000_0000
  {
    PolyDegree();
    RunBelow(POLY, 32, crc, Bits(data));
  }

  /** Every burst of at most 32 bits, anywhere in the buffer, changes the checksum. */
  lemma BurstChangesChecksum(crc: nat, a: seq<byte>, b: seq<byte>, k: nat)
    requires crc < 0x1_0000_0000
    requires |a| == |b| && a != b
    requires forall i :: 0 <= i < 8 * |a| && !(k <= i < k + 32) ==> Bits(a)[i] == Bits(b)[i]
    ensures Checksum(POLY, crc, a) != Checksum(POLY, crc, b)
  {
    PolyDegree();
    BurstDetected(POLY, 32, crc, a, b, k);
  }

  /**
    A stored little-endian checksum is right if and only if the register, run on over
    the stored bytes, ends in zero.
   */
  lemma StoredChecksum(crc: nat, data: seq<byte>, stored: seq<byte>)
    requires crc < 0x1_0000_0000 && |stored| == 4
    ensures FromLe(stored) == Checksum(POLY, crc, data) <==> Checksum(POLY, crc, data + stored) == 0
  {
    var sum := Checksum(POLY, crc, data);
    ChecksumConcat(POLY, crc, data, stored);
    FoldTrailer(POLY, sum, stored);
    ChecksumBelow(crc, data);
    FromLeBelow(stored);
    PolyDegree();
    XorBelow(sum, FromLe(stored), 32);
    XorZero(sum, FromLe(stored));
    RunInjective(POLY, 32, Xor(sum, FromLe(stored)), 0, Zeros(32));
    ZeroStays(32);
  }

  lemma {:induction false} ZeroStays(n: nat)
    ensures Run(POLY, 0, Zeros(n)) == 0
    decreases n
  {
    if n == 0 {
    } else {
      assert Zeros(n)[1..] == Zeros(n - 1);
      ZeroStays(n - 1);
    }
  }
}
