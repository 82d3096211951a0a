/**
  The table of cal2p54.c.  Its 256 constants are checked against the bit-at-a-time
  register by treating the index as eight unknown bits: after eight shifts every bit
  of the register is an exclusive OR of index bits, and that must be the entry.
 */
module CcittTable {
  import opened Words
  import opened Crc
  import opened Nibbles

  const POLY := 0x8408

  /** The constants in the order of the source, sixteen to a row. */
  const TABLE: seq<seq<nat>> := [
    [0x0000, 0x1189, 0x2312, 0x329b, 0x4624, 0x57ad, 0x6536, 0x74bf,
     0x8c48, 0x9dc1, 0xaf5a, 0xbed3, 0xca6c, 0xdbe5, 0xe97e, 0xf8f7],
    [0x1081, 0x0108, 0x3393, 0x221a, 0x56a5, 0x472c, 0x75b7, 0x643e,
     0x9cc9, 0x8d40, 0xbfdb, 0xae52, 0xdaed, 0xcb64, 0xf9ff, 0xe876],
    [0x2102, 0x308b, 0x0210, 0x1399, 0x6726, 0x76af, 0x4434, 0x55bd,
     0xad4a, 0xbcc3, 0x8e58, 0x9fd1, 0xeb6e, 0xfae7, 0xc87c, 0xd9f5],
    [0x3183, 0x200a, 0x1291, 0x0318, 0x77a7, 0x662e, 0x54b5, 0x453c,
     0xbdcb, 0xac42, 0x9ed9, 0x8f50, 0xfbef, 0xea66, 0xd8fd, 0xc974],
    [0x4204, 0x538d, 0x6116, 0x709f, 0x0420, 0x15a9, 0x2732, 0x36bb,
     0xce4c, 0xdfc5, 0xed5e, 0xfcd7, 0x8868, 0x99e1, 0xab7a, 0xbaf3],
    [0x5285, 0x430c, 0x7197, 0x601e, 0x14a1, 0x0528, 0x37b3, 0x263a,
     0xdecd, 0xcf44, 0xfddf, 0xec56, 0x98e9, 0x8960, 0xbbfb, 0xaa72],
    [0x6306, 0x728f, 0x4014, 0x519d, 0x2522, 0x34ab, 0x0630, 0x17b9,
     0xef4e, 0xfec7, 0xcc5c, 0xddd5, 0xa96a, 0xb8e3, 0x8a78, 0x9bf1],
    [0x7387, 0x620e, 0x5095, 0x411c, 0x35a3, 0x242a, 0x16b1, 0x0738,
     0xffcf, 0xee46, 0xdcdd, 0xcd54, 0xb9eb, 0xa862, 0x9af9, 0x8b70],
    [0x8408, 0x9581, 0xa71a, 0xb693, 0xc22c, 0xd3a5, 0xe13e, 0xf0b7,
     0x0840, 0x19c9, 0x2b52, 0x3adb, 0x4e64, 0x5fed, 0x6d76, 0x7cff],
    [0x9489, 0x8500, 0xb79b, 0xa612, 0xd2ad, 0xc324, 0xf1bf, 0xe036,
     0x18c1, 0x0948, 0x3bd3, 0x2a5a, 0x5ee5, 0x4f6c, 0x7df7, 0x6c7e],
    [0xa50a, 0xb483, 0x8618, 0x9791, 0xe32e, 0xf2a7, 0xc03c, 0xd1b5,
     0x2942, 0x38cb, 0x0a50, 0x1bd9, 0x6f66, 0x7eef, 0x4c74, 0x5dfd],
    [0xb58b, 0xa402, 0x9699, 0x8710, 0xf3af, 0xe226, 0xd0bd, 0xc134,
     0x39c3, 0x284a, 0x1ad1, 0x0b58, 0x7fe7, 0x6e6e, 0x5cf5, 0x4d7c],
    [0xc60c, 0xd785, 0xe51e, 0xf497, 0x8028, 0x91a1, 0xa33a, 0xb2b3,
     0x4a44, 0x5bcd, 0x6956, 0x78df, 0x0c60, 0x1de9, 0x2f72, 0x3efb],
    [0xd68d, 0xc704, 0xf59f, 0xe416, 0x90a9, 0x8120, 0xb3bb, 0xa232,
     0x5ac5, 0x4b4c, 0x79d7, 0x685e, 0x1ce1, 0x0d68, 0x3ff3, 0x2e7a],
    [0xe70e, 0xf687, 0xc41c, 0xd595, 0xa12a, 0xb0a3, 0x8238, 0x93b1,
     0x6b46, 0x7acf, 0x4854, 0x59dd, 0x2d62, 0x3ceb, 0x0e70, 0x1ff9],
    [0xf78f, 0xe606, 0xd49d, 0xc514, 0xb1ab, 0xa022, 0x92b9, 0x8330,
     0x7bc7, 0x6a4e, 0x58d5, 0x495c, 0x3de3, 0x2c6a, 0x1ef1, 0x0f78]
  ]

  // ---- Sixteen-bit words, bit by bit ----

  datatype Word = Word(n0: Nibble, n1: Nibble, n2: Nibble, n3: Nibble) {
    function Value(): nat {
      n0.Above(n1.Above(n2.Above(n3.Above(0))))
    }

    function Sum(): nat {
      n0.Value() + 16 * n1.Value() + 256 * n2.Value() + 4096 * n3.Value()
    }

    lemma SumIsValue()
      ensures Value() == Sum()
    {
      n3.AboveIs(0);
      n2.AboveIs(n3.Above(0));
      n1.AboveIs(n2.Above(n3.Above(0)));
      n0.AboveIs(n1.Above(n2.Above(n3.Above(0))));
    }

    function Half(): Word {
      Word(Nibble(n0.b1, n0.b2, n0.b3, n1.b0), Nibble(n1.b1, n1.b2, n1.b3, n2.b0),
           Nibble(n2.b1, n2.b2, n2.b3, n3.b0), Nibble(n3.b1, n3.b2, n3.b3, false))
    }

    function Plus(other: Word): Word {
      Word(n0.Plus(other.n0), n1.Plus(other.n1), n2.Plus(other.n2), n3.Plus(other.n3))
    }

    /** One shift: the polynomial has the bits 3, 10 and 15. */
    function Next(): Word {
      Word(Nibble(n0.b1, n0.b2, n0.b3, n1.b0 != n0.b0), Nibble(n1.b1, n1.b2, n1.b3, n2.b0),
           Nibble(n2.b1, n2.b2, n2.b3 != n0.b0, n3.b0), Nibble(n3.b1, n3.b2, n3.b3, n0.b0))
    }

    lemma PlusIsXor(other: Word)
      ensures Xor(Value(), other.Value()) == Plus(other).Value()
    {
      n3.PlusIsXor(other.n3, 0, 0);
      n2.PlusIsXor(other.n2, n3.Above(0), other.n3.Above(0));
      n1.PlusIsXor(other.n1, n2.Above(n3.Above(0)), other.n2.Above(other.n3.Above(0)));
      n0.PlusIsXor(other.n0, n1.Above(n2.Above(n3.Above(0))), other.n1.Above(other.n2.Above(other.n3.Above(0))));
    }

    lemma HalfValue()
      ensures Value() == Digit(n0.b0, Half().Value())
    {
      hide Digit, Nibble.Above;
      NoDigit();
      var h := Half();
      n3.Shifted(false, 0);
      n2.Shifted(n3.b0, h.n3.Above(0));
      n1.Shifted(n2.b0, h.n2.Above(h.n3.Above(0)));
      n0.Shifted(n1.b0, h.n1.Above(h.n2.Above(h.n3.Above(0))));
    }

    lemma NextIs()
      ensures Next() == if n0.b0 then Half().Plus(POLY_WORD) else Half()
    {
    }

    lemma PolyValue()
      ensures POLY_WORD.Value() == POLY
    {
    }

    lemma NextValue()
      ensures Shift(Value()) == Next().Value()
    {
      hide Xor, Digit, Value, Half, Next;
      HalfValue();
      DigitHalves(n0.b0, Half().Value());
      if n0.b0 {
        PolyValue();
        Half().PlusIsXor(POLY_WORD);
      }
      NextIs();
    }
  }

  const ZERO := Nibble(false, false, false, false)
  const POLY_WORD :=
    Word(Nibble(false, false, false, true), ZERO, Nibble(false, false, true, false), Nibble(false, false, false, true))

  // ---- Eight shifts of the register ----

  function Shift(word: nat): nat {
    Step(POLY, word, false)
  }

  function Shift8(word: nat): nat {
    Shift(Shift(Shift(Shift(Shift(Shift(Shift(Shift(word))))))))
  }

  function Halfway(lo: Nibble, hi: Nibble): Word {
    Word(Nibble(lo.b0 != hi.b0, lo.b1 != hi.b1, lo.b2 != hi.b2, lo.b3 != hi.b3),
         Nibble(false, false, false, lo.b0),
         Nibble(lo.b1, lo.b2, lo.b3, false),
         Nibble(lo.b0, lo.b1, lo.b2, lo.b3))
  }

  /** The entry for the index with these bits. */
  function Entry(lo: Nibble, hi: Nibble): Word {
    Word(Nibble(lo.b0 != hi.b0, lo.b1 != hi.b1, lo.b2 != hi.b2, (lo.b0 != lo.b3) != hi.b3),
         Nibble(lo.b1, lo.b2, lo.b3, lo.b0 != hi.b0),
         Nibble((lo.b0 != lo.b1) != hi.b1, (lo.b1 != lo.b2) != hi.b2, (lo.b2 != lo.b3) != hi.b3, lo.b3),
         Nibble(lo.b0 != hi.b0, lo.b1 != hi.b1, lo.b2 != hi.b2, lo.b3 != hi.b3))
  }

  lemma FirstFour(lo: Nibble, hi: Nibble)
    ensures Word(lo, hi, ZERO, ZERO).Next().Next().Next().Next() == Halfway(lo, hi)
  {
  }

  function SixTurns(lo: Nibble, hi: Nibble): Word {
    Word(Nibble(lo.b2 != hi.b2, lo.b3 != hi.b3, lo.b0 != hi.b0, lo.b1 != hi.b1),
         Nibble(false, lo.b0, lo.b1, lo.b2),
         Nibble(lo.b3, lo.b0 != hi.b0, (lo.b0 != lo.b1) != hi.b1, lo.b1),
         Nibble(lo.b2, lo.b3, lo.b0 != hi.b0, lo.b1 != hi.b1))
  }

  lemma NextTwo(lo: Nibble, hi: Nibble)
    ensures Halfway(lo, hi).Next().Next() == SixTurns(lo, hi)
  {
  }

  lemma LastTwo(lo: Nibble, hi: Nibble)
    ensures SixTurns(lo, hi).Next().Next() == Entry(lo, hi)
  {
  }

  lemma LastFour(lo: Nibble, hi: Nibble)
    ensures Halfway(lo, hi).Next().Next().Next().Next() == Entry(lo, hi)
  {
    hide Word.Next, Halfway, SixTurns, Entry;
    NextTwo(lo, hi);
    LastTwo(lo, hi);
  }

  function Index(lo: Nibble, hi: Nibble): nat {
    lo.Above(hi.Above(0))
  }

  lemma EntryIsShift8(lo: Nibble, hi: Nibble)
    ensures Shift8(Index(lo, hi)) == Entry(lo, hi).Value()
  {
    hide Word.Next, Shift, Entry, Halfway, Digit;
    var w0 := Word(lo, hi, ZERO, ZERO);
    var w1 := w0.Next();
    var w2 := w1.Next();
    var w3 := w2.Next();
    var w4 := w3.Next();
    var w5 := w4.Next();
    var w6 := w5.Next();
    var w7 := w6.Next();
    FirstFour(lo, hi);
    LastFour(lo, hi);
    ZERO.AboveIs(0);
    w0.NextValue();
    w1.NextValue();
    w2.NextValue();
    w3.NextValue();
    w4.NextValue();
    w5.NextValue();
    w6.NextValue();
    w7.NextValue();
  }

  // ---- The constants, row by row ----

  /** The constant with this index, against the bits of its entry. */
  predicate EntryOk(b0: bool, b1: bool, b2: bool, b3: bool, row: nat, hi: Nibble) {
    var lo := Nibble(b0, b1, b2, b3);
    && row < |TABLE|
    && |TABLE[row]| == 16
    && TABLE[row][lo.Value()] == Entry(lo, hi).Sum()
  }

  lemma Row0(b0: bool, b1: bool, b2: bool, b3: bool)
    ensures EntryOk(b0, b1, b2, b3, 0, Nibble(false, false, false, false))
  {
  }

  lemma Row1(b0: bool, b1: bool, b2: bool, b3: bool)
    ensures EntryOk(b0, b1, b2, b3, 1, Nibble(true, false, false, false))
  {
  }

  lemma Row2(b0: bool, b1: bool, b2: bool, b3: bool)
    ensures EntryOk(b0, b1, b2, b3, 2, Nibble(false, true, false, false))
  {
  }

  lemma Row3(b0: bool, b1: bool, b2: bool, b3: bool)
    ensures EntryOk(b0, b1, b2, b3, 3, Nibble(true, true, false, false))
  {
  }

  lemma Row4(b0: bool, b1: bool, b2: bool, b3: bool)
    ensures EntryOk(b0, b1, b2, b3, 4, Nibble(false, false, true, false))
  {
  }

  lemma Row5(b0: bool, b1: bool, b2: bool, b3: bool)
    ensures EntryOk(b0, b1, b2, b3, 5, Nibble(true, false, true, false))
  {
  }

  lemma Row6(b0: bool, b1: bool, b2: bool, b3: bool)
    ensures EntryOk(b0, b1, b2, b3, 6, Nibble(false, true, true, false))
  {
  }

  lemma Row7(b0: bool, b1: bool, b2: bool, b3: bool)
    ensures EntryOk(b0, b1, b2, b3, 7, Nibble(true, true, true, false))
  {
  }

  lemma Row8(b0: bool, b1: bool, b2: bool, b3: bool)
    ensures EntryOk(b0, b1, b2, b3, 8, Nibble(false, false, false, true))
  {
  }

  lemma Row9(b0: bool, b1: bool, b2: bool, b3: bool)
    ensures EntryOk(b0, b1, b2, b3, 9, Nibble(true, false, false, true))
  {
  }

  lemma Row10(b0: bool, b1: bool, b2: bool, b3: bool)
    ensures EntryOk(b0, b1, b2, b3, 10, Nibble(false, true, false, true))
  {
  }

  lemma Row11(b0: bool, b1: bool, b2: bool, b3: bool)
    ensures EntryOk(b0, b1, b2, b3, 11, Nibble(true, true, false, true))
  {
  }

  lemma Row12(b0: bool, b1: bool, b2: bool, b3: bool)
    ensures EntryOk(b0, b1, b2, b3, 12, Nibble(false, false, true, true))
  {
  }

  lemma Row13(b0: bool, b1: bool, b2: bool, b3: bool)
    ensures EntryOk(b0, b1, b2, b3, 13, Nibble(true, false, true, true))
  {
  }

  lemma Row14(b0: bool, b1: bool, b2: bool, b3: bool)
    ensures EntryOk(b0, b1, b2, b3, 14, Nibble(false, true, true, true))
  {
  }

  lemma Row15(b0: bool, b1: bool, b2: bool, b3: bool)
    ensures EntryOk(b0, b1, b2, b3, 15, Nibble(true, true, true, true))
  {
  }

  lemma RowsOk(b0: bool, b1: bool, b2: bool, b3: bool, hi: Nibble)
    ensures EntryOk(b0, b1, b2, b3, hi.Value(), hi)
  {
    hide EntryOk;
    match hi {
      case Nibble(false, false, false, false) => Row0(b0, b1, b2, b3);
      case Nibble(true, false, false, false) => Row1(b0, b1, b2, b3);
      case Nibble(false, true, false, false) => Row2(b0, b1, b2, b3);
      case Nibble(true, true, false, false) => Row3(b0, b1, b2, b3);
      case Nibble(false, false, true, false) => Row4(b0, b1, b2, b3);
      case Nibble(true, false, true, false) => Row5(b0, b1, b2, b3);
      case Nibble(false, true, true, false) => Row6(b0, b1, b2, b3);
      case Nibble(true, true, true, false) => Row7(b0, b1, b2, b3);
      case Nibble(false, false, false, true) => Row8(b0, b1, b2, b3);
      case Nibble(true, false, false, true) => Row9(b0, b1, b2, b3);
      case Nibble(false, true, false, true) => Row10(b0, b1, b2, b3);
      case Nibble(true, true, false, true) => Row11(b0, b1, b2, b3);
      case Nibble(false, false, true, true) => Row12(b0, b1, b2, b3);
      case Nibble(true, false, true, true) => Row13(b0, b1, b2, b3);
      case Nibble(false, true, true, true) => Row14(b0, b1, b2, b3);
      case Nibble(true, true, true, true) => Row15(b0, b1, b2, b3);
    }
  }

  function NibbleOf(i: nat): Nibble {
    Nibble(i % 2 == 1, i / 2 % 2 == 1, i / 4 % 2 == 1, i / 8 % 2 == 1)
  }

  lemma NibbleOfValue(i: nat)
    requires i < 16
    ensures NibbleOf(i).Value() == i
  {
  }

  /** The source's crc_ccitt_table[i]. */
  function At(i: nat): nat
    requires i < 256
  {
    RowsHaveLength(NibbleOf(i / 16), i / 16);
    TABLE[i / 16][i % 16]
  }

  lemma RowsHaveLength(hi: Nibble, row: nat)
    requires row < 16 && hi == NibbleOf(row)
    ensures row < |TABLE| && |TABLE[row]| == 16
  {
    NibbleOfValue(row);
    RowsOk(false, false, false, false, hi);
  }

  lemma AtIsEntry(i: nat)
    requires i < 256
    ensures At(i) == Entry(NibbleOf(i % 16), NibbleOf(i / 16)).Sum()
  {
    hide Entry, Word.Sum;
    var lo, hi := NibbleOf(i % 16), NibbleOf(i / 16);
    NibbleOfValue(i % 16);
    NibbleOfValue(i / 16);
    RowsOk(lo.b0, lo.b1, lo.b2, lo.b3, hi);
  }

  /** Every constant is its own index after eight shifts of the register. */
  lemma AtIsShift8(i: nat)
    requires i < 256
    ensures At(i) == Shift8(i)
  {
    hide At, Entry, Shift8, NibbleOf, Word.Sum, Word.Value, Nibble.Value, Nibble.Above;
    var lo, hi := NibbleOf(i % 16), NibbleOf(i / 16);
    NibbleOfValue(i % 16);
    NibbleOfValue(i / 16);
    AtIsEntry(i);
    IndexIs(lo, hi);
    EntryIsShift8(lo, hi);
    Entry(lo, hi).SumIsValue();
  }

  lemma IndexIs(lo: Nibble, hi: Nibble)
    ensures Index(lo, hi) == lo.Value() + 16 * hi.Value()
  {
    hi.AboveIs(0);
    lo.AboveIs(hi.Above(0));
  }
}
