/**
  Bytes and unsigned machine words.  A C word is modelled as a natural number below a
  power of two: `w & 1` is `w % 2`, `w >> 1` is `w / 2`, and the OR of shifted bytes
  that do not overlap is a sum.  Exclusive OR is defined bit by bit.
 */
module Words {
  type byte = x: int | 0 <= x < 256

  function Pow2(n: nat): nat
    ensures Pow2(n) > 0
  {
    if n == 0 then 1 else 2 * Pow2(n - 1)
  }

  lemma {:induction false} Pow2Add(m: nat, n: nat)
    ensures Pow2(m + n) == Pow2(m) * Pow2(n)
  {
    if m == 0 {
    } else {
      Pow2Add(m - 1, n);
    }
  }

  function Xor(a: nat, b: nat): nat
    decreases a
  {
    if a == 0 then b else 2 * Xor(a / 2, b / 2) + (if a % 2 != b % 2 then 1 else 0)
  }

  /** What exclusive OR does to the last bit and to the rest. */
  lemma XorHalves(a: nat, b: nat)
    ensures Xor(a, b) / 2 == Xor(a / 2, b / 2)
    ensures Xor(a, b) % 2 == (if a % 2 != b % 2 then 1 else 0)
  {
  }

  lemma {:induction false} XorComm(a: nat, b: nat)
    ensures Xor(a, b) == Xor(b, a)
    decreases a + b
  {
    if a + b == 0 {
    } else {
      XorHalves(a, b);
      XorHalves(b, a);
      XorComm(a / 2, b / 2);
    }
  }

  lemma {:induction false} XorAssoc(a: nat, b: nat, c: nat)
    ensures Xor(Xor(a, b), c) == Xor(a, Xor(b, c))
    decreases a + b + c
  {
    if a + b + c == 0 {
    } else {
      XorHalves(a, b);
      XorHalves(b, c);
      XorHalves(Xor(a, b), c);
      XorHalves(a, Xor(b, c));
      XorAssoc(a / 2, b / 2, c / 2);
    }
  }

  /** Only equal words cancel. */
  lemma {:induction false} XorZero(a: nat, b: nat)
    ensures Xor(a, b) == 0 <==> a == b
    decreases a
  {
    if a == 0 {
    } else {
      XorHalves(a, b);
      XorZero(a / 2, b / 2);
    }
  }

  lemma {:induction false} XorBelow(a: nat, b: nat, n: nat)
    requires a < Pow2(n) && b < Pow2(n)
    ensures Xor(a, b) < Pow2(n)
    decreases n
  {
    if n == 0 {
    } else {
      XorHalves(a, b);
      XorBelow(a / 2, b / 2, n - 1);
    }
  }

  /** A top bit that only one operand has is in the result. */
  lemma {:induction false} XorTop(a: nat, b: nat, n: nat)
    requires a < Pow2(n) <= b < Pow2(n + 1)
    ensures Pow2(n) <= Xor(a, b)
    decreases n
  {
    if n == 0 {
    } else {
      XorHalves(a, b);
      XorTop(a / 2, b / 2, n - 1);
    }
  }

  lemma XorCancel(a: nat, b: nat, p: nat)
    ensures Xor(Xor(a, p), Xor(b, p)) == Xor(a, b)
    ensures Xor(Xor(a, p), b) == Xor(Xor(a, b), p)
    ensures Xor(a, Xor(b, p)) == Xor(Xor(a, b), p)
  {
    XorAssoc(a, b, p);
    XorComm(p, b);
    XorAssoc(a, p, b);
    XorAssoc(Xor(a, p), b, p);
    XorAssoc(Xor(a, b), p, p);
    XorZero(p, p);
    XorComm(Xor(a, b), 0);
  }

  lemma Pow2Double(n: nat, high: nat)
    requires n > 0
    ensures Pow2(n) * high == 2 * (Pow2(n - 1) * high)
  {
  }

  lemma XorEven(low: nat, w: nat)
    ensures Xor(low, 2 * w) == 2 * Xor(low / 2, w) + low % 2
  {
    XorHalves(low, 2 * w);
  }

  /** Words without a common bit. */
  lemma {:induction false} XorDisjoint(low: nat, high: nat, n: nat)
    requires low < Pow2(n)
    ensures Xor(low, Pow2(n) * high) == low + Pow2(n) * high
    decreases n
  {
    if n == 0 {
    } else {
      hide Xor;
      Pow2Double(n, high);
      XorEven(low, Pow2(n - 1) * high);
      XorDisjoint(low / 2, high, n - 1);
    }
  }

  /** Folding in a byte leaves everything above the low byte alone. */
  lemma XorAboveByte(a: nat, c: byte)
    ensures Xor(a, c) / 256 == a / 256
  {
    var low, high := a % 256, a / 256;
    assert Pow2(8) == 256;
    XorDisjoint(low, high, 8);
    XorCancel(low, c, 256 * high);
    XorBelow(low, c, 8);
    XorDisjoint(Xor(low, c), high, 8);
  }

  /** The word with last bit `b` and `rest` above it. */
  function Digit(b: bool, rest: nat): nat {
    if b then 2 * rest + 1 else 2 * rest
  }

  lemma DigitHalves(b: bool, rest: nat)
    ensures Digit(b, rest) / 2 == rest
    ensures Digit(b, rest) % 2 == 1 <==> b
  {
  }

  lemma XorDigit(p: bool, x: nat, q: bool, y: nat)
    ensures Xor(Digit(p, x), Digit(q, y)) == Digit(p != q, Xor(x, y))
  {
    hide Digit, Xor;
    XorHalves(Digit(p, x), Digit(q, y));
    DigitHalves(p, x);
    DigitHalves(q, y);
    DigitHalves(p != q, Xor(x, y));
  }

  /** The `n` low bits of a word, least significant first. */
  function WordBits(word: nat, n: nat): (bits: seq<bool>)
    ensures |bits| == n
  {
    if n == 0 then [] else [word % 2 == 1] + WordBits(word / 2, n - 1)
  }

  lemma {:induction false} WordBitsInjective(v: nat, w: nat, n: nat)
    requires v < Pow2(n) && w < Pow2(n) && WordBits(v, n) == WordBits(w, n)
    ensures v == w
    decreases n
  {
    if n == 0 {
    } else {
      var a, b := WordBits(v, n), WordBits(w, n);
      assert a[0] == (v % 2 == 1) && b[0] == (w % 2 == 1);
      assert WordBits(v / 2, n - 1) == a[1..] == b[1..] == WordBits(w / 2, n - 1);
      WordBitsInjective(v / 2, w / 2, n - 1);
    }
  }

  lemma {:induction false} WordBitsSplit(low: nat, high: nat, k: nat, n: nat)
    requires low < Pow2(k)
    ensures WordBits(low + Pow2(k) * high, k + n) == WordBits(low, k) + WordBits(high, n)
    decreases k
  {
    if k == 0 {
      assert low + Pow2(0) * high == high;
    } else {
      hide Pow2, WordBits;
      var w := Pow2(k - 1) * high;
      Pow2Double(k, high);
      HalfBelow(low, k);
      WordBitsSplit(low / 2, high, k - 1, n);
      SplitFurther(low, w, k, n, WordBits(high, n));
    }
  }

  lemma SplitFurther(low: nat, w: nat, k: nat, n: nat, top: seq<bool>)
    requires k > 0 && WordBits(low / 2 + w, k - 1 + n) == WordBits(low / 2, k - 1) + top
    ensures WordBits(low + 2 * w, k + n) == WordBits(low, k) + top
  {
    hide WordBits;
    FirstBit(low, w, k + n);
    FirstBit(low, 0, k);
    var bit, rest := [low % 2 == 1], WordBits(low / 2, k - 1);
    assert bit + (rest + top) == bit + rest + top;
  }

  lemma HalfBelow(low: nat, k: nat)
    requires k > 0 && low < Pow2(k)
    ensures low / 2 < Pow2(k - 1)
  {
  }

  lemma FirstBit(low: nat, w: nat, n: nat)
    requires n > 0
    ensures WordBits(low + 2 * w, n) == [low % 2 == 1] + WordBits(low / 2 + w, n - 1)
  {
    assert (low + 2 * w) / 2 == low / 2 + w && (low + 2 * w) % 2 == low % 2;
  }

  /** Little-endian bytes as a number: the source's le16_to_cpu and le32_to_cpu. */
  function FromLe(bytes: seq<byte>): nat {
    if bytes == [] then 0 else bytes[0] + 256 * FromLe(bytes[1..])
  }

  lemma {:induction false} FromLeBelow(bytes: seq<byte>)
    ensures FromLe(bytes) < Pow2(8 * |bytes|)
  {
    if bytes == [] {
    } else {
      FromLeBelow(bytes[1..]);
      Pow2Add(8, 8 * |bytes| - 8);
      assert Pow2(8) == 256;
    }
  }

  // ---- 32-bit words, most significant byte first ----

  const UINT32 := 0x1_0000_0000

  /** The low 32 bits of an integer of either sign. */
  function ToBe32(n: int): (bytes: seq<byte>)
    ensures |bytes| == 4
  {
    [n / 256 / 256 / 256 % 256, n / 256 / 256 % 256, n / 256 % 256, n % 256]
  }

  function FromBe32(bytes: seq<byte>): (n: nat)
    requires |bytes| == 4
  {
    ((bytes[0] as int * 256 + bytes[1]) * 256 + bytes[2]) * 256 + bytes[3]
  }

  lemma FromBe32Below(bytes: seq<byte>)
    requires |bytes| == 4
    ensures FromBe32(bytes) < UINT32
  {
  }

  lemma Be32RoundTrip(n: int)
    ensures FromBe32(ToBe32(n)) == n % UINT32
  {
    var q1, r0 := n / 256, n % 256;
    var q2, r1 := q1 / 256, q1 % 256;
    var q3, r2 := q2 / 256, q2 % 256;
    var q4, r3 := q3 / 256, q3 % 256;
    var value := ((r3 * 256 + r2) * 256 + r1) * 256 + r0;
    assert n == value + UINT32 * q4 && 0 <= value < UINT32;
  }

  lemma FromBe32Injective(a: seq<byte>, b: seq<byte>)
    requires |a| == |b| == 4 && FromBe32(a) == FromBe32(b)
    ensures a == b
  {
    var p, q := a[0] as int * 256 + a[1], b[0] as int * 256 + b[1];
    LastByte(p * 256 + a[2], a[3], q * 256 + b[2], b[3]);
    LastByte(p, a[2], q, b[2]);
    LastByte(a[0], a[1], b[0], b[1]);
  }

  lemma LastByte(high: int, low: byte, high': int, low': byte)
    requires high * 256 + low == high' * 256 + low'
    ensures high == high' && low == low'
  {
  }

  /** The value of a 32-bit word as a signed integer. */
  function AsInt32(word: int): int {
    if word % UINT32 < UINT32 / 2 then word % UINT32 else word % UINT32 - UINT32
  }
}
