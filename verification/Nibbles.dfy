/** Four bits of a word; a register is evaluated one such piece at a time. */
module Nibbles {
  import opened Words

  lemma NoDigit()
    ensures Digit(false, 0) == 0
  {
  }

  datatype Nibble = Nibble(b0: bool, b1: bool, b2: bool, b3: bool) {
    /** The word with these low bits and `rest` above them. */
    function Above(rest: nat): nat {
      Digit(b0, Digit(b1, Digit(b2, Digit(b3, rest))))
    }

    function Value(): nat {
      (if b0 then 1 else 0) + (if b1 then 2 else 0) + (if b2 then 4 else 0) + (if b3 then 8 else 0)
    }

    lemma AboveIs(rest: nat)
      ensures Above(rest) == Value() + 16 * rest
    {
    }

    /** The last bit, and the nibble that takes up the first bit above it. */
    lemma Shifted(c: bool, rest: nat)
      ensures Above(Digit(c, rest)) == Digit(b0, Nibble(b1, b2, b3, c).Above(rest))
    {
      hide Digit;
    }

    function Plus(other: Nibble): Nibble {
      Nibble(b0 != other.b0, b1 != other.b1, b2 != other.b2, b3 != other.b3)
    }

    lemma PlusIsXor(other: Nibble, rest: nat, otherRest: nat)
      ensures Xor(Above(rest), other.Above(otherRest)) == Plus(other).Above(Xor(rest, otherRest))
    {
      hide Xor, Digit;
      var x3, y3 := Digit(b3, rest), Digit(other.b3, otherRest);
      var x2, y2 := Digit(b2, x3), Digit(other.b2, y3);
      XorDigit(b3, rest, other.b3, otherRest);
      XorDigit(b2, x3, other.b2, y3);
      XorDigit(b1, x2, other.b1, y2);
      XorDigit(b0, Digit(b1, x2), other.b0, Digit(other.b1, y2));
    }
  }
}
