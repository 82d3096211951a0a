/**
  The reflected cyclic redundancy check behind both checksum programs, for any
  polynomial and any register width: a register that consumes a stream of bits,
  low bit of each byte first.
 */
module Crc {
  import opened Words

  /** One turn: shift right, and feed the polynomial back on a bit mismatch. */
  function Step(poly: nat, register: nat, bit: bool): nat {
    if (register % 2 == 1) != bit then Xor(register / 2, poly) else register / 2
  }

  function Run(poly: nat, register: nat, bits: seq<bool>): nat
    decreases bits
  {
    if bits == [] then register else Run(poly, Step(poly, register, bits[0]), bits[1..])
  }

  function Bits(data: seq<byte>): (bits: seq<bool>)
    ensures |bits| == 8 * |data|
  {
    if data == [] then [] else WordBits(data[0], 8) + Bits(data[1..])
  }

  function Checksum(poly: nat, register: nat, data: seq<byte>): nat {
    Run(poly, register, Bits(data))
  }

  function Zeros(n: nat): (bits: seq<bool>)
    ensures |bits| == n
  {
    if n == 0 then [] else [false] + Zeros(n - 1)
  }

  /** `poly` is the reflected form of a polynomial of degree `width`. */
  predicate Degree(poly: nat, width: nat) {
    0 < width && Pow2(width - 1) <= poly < Pow2(width)
  }

  // ---- Pieces ----

  lemma {:induction false} RunConcat(poly: nat, register: nat, a: seq<bool>, b: seq<bool>)
    ensures Run(poly, register, a + b) == Run(poly, Run(poly, register, a), b)
    decreases a
  {
    if a == [] {
      assert a + b == b;
    } else {
      assert (a + b)[1..] == a[1..] + b;
      RunConcat(poly, Step(poly, register, a[0]), a[1..], b);
    }
  }

  lemma {:induction false} BitsConcat(a: seq<byte>, b: seq<byte>)
    ensures Bits(a + b) == Bits(a) + Bits(b)
  {
    if a == [] {
      assert a + b == b;
    } else {
      assert (a + b)[1..] == a[1..] + b;
      BitsConcat(a[1..], b);
    }
  }

  /** A buffer may be checksummed in pieces, passing the register along. */
  lemma ChecksumConcat(poly: nat, register: nat, a: seq<byte>, b: seq<byte>)
    ensures Checksum(poly, register, a + b) == Checksum(poly, Checksum(poly, register, a), b)
  {
    BitsConcat(a, b);
    RunConcat(poly, register, Bits(a), Bits(b));
  }

  // ---- The register is linear and reversible ----

  lemma StepLinear(poly: nat, r: nat, s: nat, a: bool, b: bool)
    ensures Xor(Step(poly, r, a), Step(poly, s, b)) == Step(poly, Xor(r, s), a != b)
  {
    XorHalves(r, s);
    XorCancel(r / 2, s / 2, poly);
  }

  lemma {:induction false} RunLinear(poly: nat, r: nat, s: nat, a: seq<bool>, b: seq<bool>)
    requires |a| == |b|
    ensures Xor(Run(poly, r, a), Run(poly, s, b)) == Run(poly, Xor(r, s), Differences(a, b))
    decreases a
  {
    if a == [] {
    } else {
      StepLinear(poly, r, s, a[0], b[0]);
      assert Differences(a, b)[1..] == Differences(a[1..], b[1..]);
      RunLinear(poly, Step(poly, r, a[0]), Step(poly, s, b[0]), a[1..], b[1..]);
    }
  }

  function Differences(a: seq<bool>, b: seq<bool>): seq<bool>
    requires |a| == |b|
  {
    seq(|a|, i requires 0 <= i < |a| => a[i] != b[i])
  }

  lemma StepBelow(poly: nat, width: nat, register: nat, bit: bool)
    requires Degree(poly, width) && register < Pow2(width)
    ensures Step(poly, register, bit) < Pow2(width)
  {
    XorBelow(register / 2, poly, width);
  }

  lemma {:induction false} RunBelow(poly: nat, width: nat, register: nat, bits: seq<bool>)
    requires Degree(poly, width) && register < Pow2(width)
    ensures Run(poly, register, bits) < Pow2(width)
    decreases bits
  {
    if bits == [] {
    } else {
      StepBelow(poly, width, register, bits[0]);
      RunBelow(poly, width, Step(poly, register, bits[0]), bits[1..]);
    }
  }

  /** A nonzero difference never vanishes while the streams agree. */
  lemma DifferenceStays(poly: nat, width: nat, diff: nat)
    requires Degree(poly, width) && 0 < diff < Pow2(width)
    ensures 0 < Step(poly, diff, false)
  {
    if diff % 2 == 1 { XorTop(diff / 2, poly, width - 1); }
  }

  /** Nothing that follows in the stream can make two different registers equal. */
  lemma {:induction false} RunInjective(poly: nat, width: nat, r: nat, s: nat, bits: seq<bool>)
    requires Degree(poly, width) && r < Pow2(width) && s < Pow2(width)
    ensures Run(poly, r, bits) == Run(poly, s, bits) <==> r == s
    decreases bits
  {
    if bits == [] || r == s {
    } else {
      var bit := bits[0];
      XorZero(r, s);
      XorBelow(r, s, width);
      DifferenceStays(poly, width, Xor(r, s));
      StepLinear(poly, r, s, bit, bit);
      XorZero(Step(poly, r, bit), Step(poly, s, bit));
      StepBelow(poly, width, r, bit);
      StepBelow(poly, width, s, bit);
      RunInjective(poly, width, Step(poly, r, bit), Step(poly, s, bit), bits[1..]);
    }
  }

  // ---- Burst errors ----

  /**
    `j` steps after the streams first differed, the difference of the registers is at
    least 2^(width-1-j); so it cannot vanish before the window is over.
   */
  lemma {:induction false} Diverged(poly: nat, width: nat, r: nat, s: nat, a: seq<bool>, b: seq<bool>, j: nat)
    requires Degree(poly, width) && j < width && r < Pow2(width) && s < Pow2(width)
    requires Pow2(width - 1 - j) <= Xor(r, s)
    requires |a| == |b| && forall i :: width - 1 - j <= i < |a| ==> a[i] == b[i]
    ensures Run(poly, r, a) != Run(poly, s, b)
    decreases a
  {
    XorZero(r, s);
    hide Xor, Pow2, Degree;
    if j + 1 == width {
      assert a == b;
      RunInjective(poly, width, r, s, a);
    } else if a == [] {
    } else {
      DivergesFurther(poly, width, r, s, a[0], b[0], j);
      hide Step;
      Diverged(poly, width, Step(poly, r, a[0]), Step(poly, s, b[0]), a[1..], b[1..], j + 1);
    }
  }

  lemma DivergesFurther(poly: nat, width: nat, r: nat, s: nat, x: bool, y: bool, j: nat)
    requires Degree(poly, width) && j + 1 < width && r < Pow2(width) && s < Pow2(width)
    requires Pow2(width - 1 - j) <= Xor(r, s)
    ensures Step(poly, r, x) < Pow2(width) && Step(poly, s, y) < Pow2(width)
    ensures Pow2(width - 2 - j) <= Xor(Step(poly, r, x), Step(poly, s, y))
  {
    StepBelow(poly, width, r, x);
    StepBelow(poly, width, s, y);
    StepLinear(poly, r, s, x, y);
    XorBelow(r, s, width);
    XorTop(Xor(r, s) / 2, poly, width - 1);
    Pow2Grows(width - 2 - j, width - 1);
    hide Xor;
  }

  lemma {:induction false} Pow2Grows(m: nat, n: nat)
    requires m <= n
    ensures Pow2(m) <= Pow2(n)
    decreases n
  {
    if m == n {
    } else {
      Pow2Grows(m, n - 1);
    }
  }

  lemma {:induction false} BurstInStream(poly: nat, width: nat, register: nat, a: seq<bool>, b: seq<bool>, k: nat)
    requires Degree(poly, width) && register < Pow2(width)
    requires |a| == |b| && a != b
    requires forall i :: 0 <= i < |a| && !(k <= i < k + width) ==> a[i] == b[i]
    ensures Run(poly, register, a) != Run(poly, register, b)
    decreases a
  {
    var r, s := Step(poly, register, a[0]), Step(poly, register, b[0]);
    StepBelow(poly, width, register, a[0]);
    StepBelow(poly, width, register, b[0]);
    if a[0] == b[0] {
      BurstInStream(poly, width, r, a[1..], b[1..], if k == 0 then 0 else k - 1);
    } else {
      StepLinear(poly, register, register, a[0], b[0]);
      XorZero(register, register);
      assert Xor(r, s) == poly;
      Diverged(poly, width, r, s, a[1..], b[1..], 0);
    }
  }

  lemma {:induction false} BitsInjective(a: seq<byte>, b: seq<byte>)
    requires |a| == |b| && Bits(a) == Bits(b)
    ensures a == b
  {
    if a == [] {
    } else {
      assert Pow2(8) == 256;
      assert WordBits(a[0], 8) == Bits(a)[..8] == Bits(b)[..8] == WordBits(b[0], 8);
      WordBitsInjective(a[0], b[0], 8);
      assert Bits(a[1..]) == Bits(a)[8..] == Bits(b)[8..] == Bits(b[1..]);
      BitsInjective(a[1..], b[1..]);
    }
  }

  /** Every burst no longer than the register, anywhere in the buffer, changes the checksum. */
  lemma BurstDetected(poly: nat, width: nat, register: nat, a: seq<byte>, b: seq<byte>, k: nat)
    requires Degree(poly, width) && register < Pow2(width)
    requires |a| == |b| && a != b
    requires forall i :: 0 <= i < 8 * |a| && !(k <= i < k + width) ==> Bits(a)[i] == Bits(b)[i]
    ensures Checksum(poly, register, a) != Checksum(poly, register, b)
  {
    if Bits(a) == Bits(b) { BitsInjective(a, b); }
    BurstInStream(poly, width, register, Bits(a), Bits(b), k);
  }

  // ---- A word in the stream ----

  lemma FoldStep(poly: nat, r: nat, w: nat)
    ensures Xor(Step(poly, r, w % 2 == 1), w / 2) == Step(poly, Xor(r, w), false)
  {
    XorHalves(r, w);
    XorCancel(r / 2, w / 2, poly);
  }

  /** Feeding a word is folding it into the register and then shifting in zeros. */
  lemma {:induction false} FoldWord(poly: nat, r: nat, w: nat, n: nat)
    requires w < Pow2(n)
    ensures Run(poly, r, WordBits(w, n)) == Run(poly, Xor(r, w), Zeros(n))
    decreases n
  {
    if n == 0 {
      XorComm(r, 0);
    } else {
      var bits := WordBits(w, n);
      assert bits[0] == (w % 2 == 1) && bits[1..] == WordBits(w / 2, n - 1) && Zeros(n)[1..] == Zeros(n - 1);
      FoldStep(poly, r, w);
      FoldWord(poly, Step(poly, r, w % 2 == 1), w / 2, n - 1);
    }
  }

  lemma {:induction false} LeBits(bytes: seq<byte>)
    ensures Bits(bytes) == WordBits(FromLe(bytes), 8 * |bytes|)
  {
    if bytes == [] {
    } else {
      LeBits(bytes[1..]);
      assert Pow2(8) == 256;
      WordBitsSplit(bytes[0], FromLe(bytes[1..]), 8, 8 * |bytes| - 8);
    }
  }

  /** A little-endian word of the register's width behind the data. */
  lemma FoldTrailer(poly: nat, register: nat, trailer: seq<byte>)
    ensures Checksum(poly, register, trailer) == Run(poly, Xor(register, FromLe(trailer)), Zeros(8 * |trailer|))
  {
    LeBits(trailer);
    FromLeBelow(trailer);
    FoldWord(poly, register, FromLe(trailer), 8 * |trailer|);
  }

  // ---- Errors of odd weight ----

  /** The word has an odd number of one bits. */
  predicate OddOnes(w: nat) {
    w > 0 && (w % 2 == 1) != OddOnes(w / 2)
  }

  lemma {:induction false} OddOnesXor(a: nat, b: nat)
    ensures OddOnes(Xor(a, b)) == (OddOnes(a) != OddOnes(b))
    decreases a + b
  {
    if a + b == 0 {
    } else {
      XorHalves(a, b);
      OddOnesXor(a / 2, b / 2);
      hide Xor;
    }
  }

  /** How many bits differ. */
  function Flips(a: seq<bool>, b: seq<bool>): nat
    requires |a| == |b|
  {
    if a == [] then 0 else (if a[0] != b[0] then 1 else 0) + Flips(a[1..], b[1..])
  }

  /** With an odd polynomial, a turn takes up the parity of the bit. */
  lemma StepParity(poly: nat, register: nat, bit: bool)
    requires OddOnes(poly)
    ensures OddOnes(Step(poly, register, bit)) == (OddOnes(register) != bit)
  {
    OddOnesXor(register / 2, poly);
    hide Xor;
  }

  lemma {:induction false} RunParity(poly: nat, r: nat, s: nat, a: seq<bool>, b: seq<bool>)
    requires OddOnes(poly) && |a| == |b|
    ensures OddOnes(Run(poly, r, a)) != OddOnes(Run(poly, s, b))
       <==> (OddOnes(r) != OddOnes(s)) != (Flips(a, b) % 2 == 1)
    decreases a
  {
    if a == [] {
    } else {
      hide OddOnes, Step, Xor;
      var r', s' := Step(poly, r, a[0]), Step(poly, s, b[0]);
      assert Run(poly, r, a) == Run(poly, r', a[1..]) && Run(poly, s, b) == Run(poly, s', b[1..]);
      assert Flips(a, b) == (if a[0] != b[0] then 1 else 0) + Flips(a[1..], b[1..]);
      hide Run, Flips;
      StepParity(poly, r, a[0]);
      StepParity(poly, s, b[0]);
      RunParity(poly, r', s', a[1..], b[1..]);
    }
  }

  /**
    If the polynomial has an odd number of one bits, an odd number of flipped bits, wherever
    they are, changes the checksum.
   */
  lemma OddErrorDetected(poly: nat, register: nat, a: seq<byte>, b: seq<byte>)
    requires OddOnes(poly) && |a| == |b| && Flips(Bits(a), Bits(b)) % 2 == 1
    ensures Checksum(poly, register, a) != Checksum(poly, register, b)
  {
    RunParity(poly, register, register, Bits(a), Bits(b));
  }
}
