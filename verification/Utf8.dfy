/**
  The converter's UTF-8 encoder and decoder.  A byte of a multi-byte sequence is written
  as a sum: the bits that mark its role do not overlap the payload.
 */
module Utf8 {
  import opened Words

  /** What one attempt to read a character gives: the character and how many bytes it takes. */
  datatype Read = Illegal | Short | Char(c: nat, len: nat)

  predicate IsScalar(c: int) {
    0 <= c < 0xD800 || 0xE000 <= c < 0x11_0000
  }

  /** The two codes that the decoder refuses although they are scalar values. */
  predicate IsReserved(c: int) {
    c == 0xFFFE || c == 0xFFFF
  }

  function Enc(c: nat): (s: seq<byte>)
    ensures 1 <= |s| <= 4
  {
    if c <= 0x7F then [c]
    else if c <= 0x7FF then [0xC0 + c / 64 % 32, 0x80 + c % 64]
    else if c <= 0xFFFF then [0xE0 + c / 64 / 64 % 16, 0x80 + c / 64 % 64, 0x80 + c % 64]
    else if c <= 0x10_FFFF then
      [0xF0 + c / 64 / 64 / 64 % 8, 0x80 + c / 64 / 64 % 64, 0x80 + c / 64 % 64, 0x80 + c % 64]
    else [0x3F]
  }

  /** How long a sequence its first byte announces; -1 if it cannot start one. */
  function SeqLength(b: byte): (n: int)
    ensures n == -1 || 2 <= n <= 6
  {
    if b / 32 == 0x06 then 2
    else if b / 16 == 0x0E then 3
    else if b / 8 == 0x1E then 4
    else if b / 4 == 0x3E then 5
    else if b / 2 == 0x7E then 6
    else -1
  }

  predicate IsOverlong(s: seq<byte>, n: int)
    requires n <= |s|
  {
    || (n == 2 && s[0] / 2 == 0x60 && s[1] / 64 == 0x02)
    || (n == 3 && s[0] == 0xE0 && s[1] / 32 == 0x04 && s[2] / 64 == 0x02)
    || (n == 4 && s[0] == 0xF0 && s[1] / 16 == 0x08 && s[2] / 64 == 0x02 && s[3] / 64 == 0x02)
  }

  predicate IsSurrogate(s: seq<byte>, n: int)
    requires n <= |s|
  {
    n == 3 && s[0] == 0xED && 0xA0 <= s[1] <= 0xBF
  }

  predicate IsIllegal(s: seq<byte>, n: int)
    requires n <= |s|
  {
    n == 3 && s[0] == 0xEF && s[1] == 0xBF && 0xBE <= s[2] <= 0xBF
  }

  predicate IsTail(b: byte) {
    0x80 <= b <= 0xBF
  }

  /** The payload of the first byte of a sequence of `n`. */
  function Lead(b: byte, n: int): nat {
    if n == 2 then b % 32 else if n == 3 then b % 16 else b % 8
  }

  /** The payload of any later byte. */
  function Six(b: byte): (r: nat)
    ensures r < 64
  {
    b % 64
  }

  /** The payload of the first `i` bytes of a sequence of `n`. */
  function Payload(s: seq<byte>, n: int, i: nat): nat
    requires 1 <= i <= |s|
  {
    if i == 1 then Lead(s[0], n) else Payload(s, n, i - 1) * 64 + Six(s[i - 1])
  }

  function Dec(s: seq<byte>): (r: Read)
    requires s != []
    ensures r.Char? ==> 1 <= r.len <= 4 && r.len <= |s|
  {
    if s[0] <= 0x7F then Char(s[0], 1) else
      var n := SeqLength(s[0]);
      // Compared as unsigned, -1 is more than any number of bytes.
      if n == -1 || n > |s| then Short
      else if n >= 5 || IsOverlong(s, n) || IsSurrogate(s, n) || IsIllegal(s, n) then Illegal
      else if forall i :: 1 <= i < n ==> IsTail(s[i]) then Char(Payload(s, n, n), n)
      else Illegal
  }

  // ---- The grammar of RFC 3629, section 4 ----

  predicate IsUtf8Char(s: seq<byte>) {
    || (|s| == 1 && s[0] <= 0x7F)
    || (|s| == 2 && 0xC2 <= s[0] <= 0xDF && IsTail(s[1]))
    || (|s| == 3 && IsTail(s[2]) &&
         (|| (s[0] == 0xE0 && 0xA0 <= s[1] <= 0xBF)
          || (0xE1 <= s[0] <= 0xEC && IsTail(s[1]))
          || (s[0] == 0xED && 0x80 <= s[1] <= 0x9F)
          || (0xEE <= s[0] <= 0xEF && IsTail(s[1]))))
    || (|s| == 4 && IsTail(s[2]) && IsTail(s[3]) &&
         (|| (s[0] == 0xF0 && 0x90 <= s[1] <= 0xBF)
          || (0xF1 <= s[0] <= 0xF3 && IsTail(s[1]))
          || (s[0] == 0xF4 && 0x80 <= s[1] <= 0x8F)))
  }

  /** The code of a sequence, from its payload bits. */
  function Code(s: seq<byte>): nat
    requires 1 <= |s| <= 4
  {
    if |s| == 1 then s[0] else Payload(s, |s|, |s|)
  }

  lemma Code2(s: seq<byte>)
    requires |s| == 2
    ensures Code(s) == Lead(s[0], 2) * 64 + Six(s[1])
  {
    assert Payload(s, 2, 1) == Lead(s[0], 2);
  }

  lemma Code3(s: seq<byte>)
    requires |s| == 3
    ensures Code(s) == (Lead(s[0], 3) * 64 + Six(s[1])) * 64 + Six(s[2])
  {
    assert Payload(s, 3, 2) == Payload(s, 3, 1) * 64 + Six(s[1]);
  }

  lemma Code4(s: seq<byte>)
    requires |s| == 4
    ensures Code(s) == ((Lead(s[0], 4) * 64 + Six(s[1])) * 64 + Six(s[2])) * 64 + Six(s[3])
  {
    assert Payload(s, 4, 2) == Payload(s, 4, 1) * 64 + Six(s[1]);
    assert Payload(s, 4, 3) == Payload(s, 4, 2) * 64 + Six(s[2]);
  }

  lemma Digits(q: nat, r: nat)
    requires r < 64
    ensures (q * 64 + r) / 64 == q && (q * 64 + r) % 64 == r
  {
  }

  /** What the encoder writes for a scalar value is well formed and has that code. */
  lemma EncIsWellFormed(c: nat)
    requires IsScalar(c)
    ensures IsUtf8Char(Enc(c)) && Code(Enc(c)) == c
  {
    hide Enc, Code, IsUtf8Char;
    var c1, r1 := c / 64, c % 64;
    var c2, r2 := c1 / 64, c1 % 64;
    if c <= 0x7F {
      Single(c);
    } else if c <= 0x7FF {
      Two(c1, r1);
    } else if c <= 0xFFFF {
      Three(c2, r2, r1);
    } else {
      Four(c2 / 64, c2 % 64, r2, r1);
    }
  }

  lemma Single(c: nat)
    requires c <= 0x7F
    ensures IsUtf8Char(Enc(c)) && Code(Enc(c)) == c
  {
  }

  lemma Two(a: nat, b: nat)
    requires 2 <= a < 32 && b < 64
    ensures var s := [0xC0 + a, 0x80 + b];
            IsUtf8Char(s) && Code(s) == a * 64 + b && Enc(a * 64 + b) == s
  {
    Code2([0xC0 + a, 0x80 + b]);
    Digits(a, b);
  }

  lemma Three(a: nat, b: nat, d: nat)
    requires a < 16 && b < 64 && d < 64 && 0x20 <= a * 64 + b && !(0xD800 <= (a * 64 + b) * 64 + d < 0xE000)
    ensures var s := [0xE0 + a, 0x80 + b, 0x80 + d];
            IsUtf8Char(s) && Code(s) == (a * 64 + b) * 64 + d && Enc((a * 64 + b) * 64 + d) == s
  {
    hide Enc, Code;
    ThreeEnc(a, b, d);
    ThreeCode(a, b, d);
  }

  lemma ThreeEnc(a: nat, b: nat, d: nat)
    requires a < 16 && b < 64 && d < 64 && 0x20 <= a * 64 + b
    ensures Enc((a * 64 + b) * 64 + d) == [0xE0 + a, 0x80 + b, 0x80 + d]
  {
    Digits(a, b);
    Digits(a * 64 + b, d);
  }

  lemma ThreeCode(a: nat, b: nat, d: nat)
    requires a < 16 && b < 64 && d < 64
    ensures Code([0xE0 + a, 0x80 + b, 0x80 + d]) == (a * 64 + b) * 64 + d
  {
    hide Code;
    Code3([0xE0 + a, 0x80 + b, 0x80 + d]);
  }

  lemma Four(a: nat, b: nat, d: nat, e: nat)
    requires a < 8 && b < 64 && d < 64 && e < 64
    requires 0x10 <= a * 64 + b < 0x110
    ensures var s := [0xF0 + a, 0x80 + b, 0x80 + d, 0x80 + e];
            IsUtf8Char(s) && Code(s) == ((a * 64 + b) * 64 + d) * 64 + e && Enc(((a * 64 + b) * 64 + d) * 64 + e) == s
  {
    hide Enc, Code;
    FourEnc(a, b, d, e);
    FourCode(a, b, d, e);
    FourIsChar(a, b, d, e);
  }

  lemma FourCode(a: nat, b: nat, d: nat, e: nat)
    requires a < 8 && b < 64 && d < 64 && e < 64
    ensures Code([0xF0 + a, 0x80 + b, 0x80 + d, 0x80 + e]) == ((a * 64 + b) * 64 + d) * 64 + e
  {
    hide Code;
    Code4([0xF0 + a, 0x80 + b, 0x80 + d, 0x80 + e]);
  }

  lemma FourIsChar(a: nat, b: nat, d: nat, e: nat)
    requires a < 8 && b < 64 && d < 64 && e < 64 && 0x10 <= a * 64 + b < 0x110
    ensures IsUtf8Char([0xF0 + a, 0x80 + b, 0x80 + d, 0x80 + e])
  {
  }

  lemma FourEnc(a: nat, b: nat, d: nat, e: nat)
    requires a < 8 && b < 64 && d < 64 && e < 64
    requires 0x10 <= a * 64 + b < 0x110
    ensures Enc(((a * 64 + b) * 64 + d) * 64 + e) == [0xF0 + a, 0x80 + b, 0x80 + d, 0x80 + e]
  {
    Digits(a, b);
    Digits(a * 64 + b, d);
    Digits((a * 64 + b) * 64 + d, e);
  }

  lemma Back3(s: seq<byte>)
    requires |s| == 3 && IsUtf8Char(s)
    ensures IsScalar(Code(s)) && Enc(Code(s)) == s
  {
    hide Enc, Code;
    var a, b, d: nat := s[0] - 0xE0, s[1] - 0x80, s[2] - 0x80;
    Three(a, b, d);
    assert s == [0xE0 + a, 0x80 + b, 0x80 + d];
  }

  lemma Back4(s: seq<byte>)
    requires |s| == 4 && IsUtf8Char(s)
    ensures IsScalar(Code(s)) && Enc(Code(s)) == s
  {
    hide Enc, Code;
    var a, b, d, e := Parts4(s);
    hide IsUtf8Char;
    Four(a, b, d, e);
    var high := a * 64 + b;
    assert 0x1_0000 <= (high * 64 + d) * 64 + e < 0x11_0000;
  }

  lemma Parts4(s: seq<byte>) returns (a: nat, b: nat, d: nat, e: nat)
    requires |s| == 4 && IsUtf8Char(s)
    ensures a < 8 && b < 64 && d < 64 && e < 64 && 0x10 <= a * 64 + b < 0x110
    ensures s == [0xF0 + a, 0x80 + b, 0x80 + d, 0x80 + e]
  {
    a, b, d, e := s[0] - 0xF0, s[1] - 0x80, s[2] - 0x80, s[3] - 0x80;
    assert s == [0xF0 + a, 0x80 + b, 0x80 + d, 0x80 + e];
  }

  /** A well-formed sequence is what the encoder writes for its code. */
  lemma WellFormedIsEnc(s: seq<byte>)
    requires IsUtf8Char(s)
    ensures IsScalar(Code(s)) && Enc(Code(s)) == s
  {
    if |s| == 2 {
      Two(s[0] - 0xC0, s[1] - 0x80);
      assert s == [0xC0 + (s[0] - 0xC0), 0x80 + (s[1] - 0x80)];
    } else if |s| == 3 {
      Back3(s);
    } else if |s| == 4 {
      Back4(s);
    }
  }

  // ---- The decoder reads the grammar ----

  lemma {:induction false} PayloadPrefix(s: seq<byte>, t: seq<byte>, n: int, i: nat)
    requires 1 <= i <= |s| && i <= |t| && s[..i] == t[..i]
    ensures Payload(s, n, i) == Payload(t, n, i)
    decreases i
  {
    assert s[i - 1] == s[..i][i - 1] == t[..i][i - 1] == t[i - 1];
    if i == 1 {
    } else {
      assert s[..i - 1] == s[..i][..i - 1] == t[..i][..i - 1] == t[..i - 1];
      PayloadPrefix(s, t, n, i - 1);
    }
  }

  /** Once a character or an error is found, more input changes nothing. */
  lemma DecIsStable(s: seq<byte>, more: seq<byte>)
    requires s != [] && !Dec(s).Short?
    ensures Dec(s + more) == Dec(s)
  {
    var t := s + more;
    var n := SeqLength(s[0]);
    if 0x7F < s[0] && n <= |s| {
      assert forall i :: 0 <= i < n ==> t[i] == s[i];
      assert s[..n] == t[..n];
      PayloadPrefix(s, t, n, n);
    }
  }

  /**
    The decoder asks for more input for ever exactly at a byte that cannot start a
    sequence: 80 to BF, FE and FF are not reported as illegal.
   */
  lemma StarvedForEver(s: seq<byte>)
    requires s != []
    ensures (forall more :: Dec(s + more).Short?) <==> 0x80 <= s[0] <= 0xBF || 0xFE <= s[0]
  {
    if s[0] <= 0x7F || 0xC0 <= s[0] < 0xFE {
      var more := seq(6, _ => 0 as byte);
      assert SeqLength(s[0]) <= 6 <= |s + more| && (s + more)[0] == s[0];
      assert !Dec(s + more).Short?;
    } else {
      forall more ensures Dec(s + more).Short? { assert (s + more)[0] == s[0]; }
    }
  }

  lemma Refused(s: seq<byte>)
    requires |s| == 3 && IsUtf8Char(s)
    ensures IsIllegal(s, 3) <==> IsReserved(Code(s))
  {
    Code3(s);
  }

  /** Every well-formed sequence is read, except the two refused codes. */
  lemma DecReadsWellFormed(s: seq<byte>)
    requires IsUtf8Char(s)
    ensures Dec(s) == if IsReserved(Code(s)) then Illegal else Char(Code(s), |s|)
  {
    if |s| == 3 { Refused(s); } else { NotReserved(s); }
    if |s| > 1 { LeadLength(s); }
    hide Payload, Lead;
  }

  lemma NotReserved(s: seq<byte>)
    requires IsUtf8Char(s) && |s| != 3
    ensures !IsReserved(Code(s))
  {
    WellFormedIsEnc(s);
  }

  lemma LeadLength(s: seq<byte>)
    requires IsUtf8Char(s) && |s| > 1
    ensures SeqLength(s[0]) == |s| && forall i :: 1 <= i < |s| ==> IsTail(s[i])
    ensures !IsOverlong(s, |s|) && !IsSurrogate(s, |s|)
  {
  }

  /** What is read is well formed, as long as the code is in range. */
  lemma DecReadsOnlyWellFormed(s: seq<byte>)
    requires s != [] && Dec(s).Char? && Dec(s).c < 0x11_0000
    ensures var r := Dec(s);
            IsUtf8Char(s[..r.len]) && Code(s[..r.len]) == r.c && !IsReserved(r.c)
  {
    var r := Dec(s);
    var n := r.len;
    var u := s[..n];
    if n > 1 {
      PayloadPrefix(s, u, n, n);
      assert forall i :: 0 <= i < n ==> u[i] == s[i];
      ReadIsWellFormed(u, n);
      if n == 3 { Refused(u); } else { NotReserved(u); }
    }
  }

  lemma ReadIsWellFormed(u: seq<byte>, n: nat)
    requires |u| == n && 2 <= n <= 4 && SeqLength(u[0]) == n && 0x7F < u[0]
    requires !IsOverlong(u, n) && !IsSurrogate(u, n) && forall i :: 1 <= i < n ==> IsTail(u[i])
    requires Payload(u, n, n) < 0x11_0000
    ensures IsUtf8Char(u)
  {
    assert IsTail(u[1]);
    if n == 3 { assert IsTail(u[2]); }
    if n == 4 {
      Code4(u);
      assert IsTail(u[2]) && IsTail(u[3]);
    }
  }

  /**
    The decoder takes exactly the encodings of the scalar values other than U+FFFE and
    U+FFFF, so it undoes the encoder and no character has a second, longer form.
   */
  lemma DecIff(s: seq<byte>, c: nat, n: nat)
    requires s != [] && c < 0x11_0000
    ensures Dec(s) == Char(c, n) <==>
            IsScalar(c) && !IsReserved(c) && n == |Enc(c)| && n <= |s| && s[..n] == Enc(c)
  {
    hide Dec, Enc, Code, IsUtf8Char;
    if Dec(s) == Char(c, n) {
      DecReadsOnlyWellFormed(s);
      WellFormedIsEnc(s[..n]);
    }
    if IsScalar(c) && !IsReserved(c) && n == |Enc(c)| && n <= |s| && s[..n] == Enc(c) {
      EncIsWellFormed(c);
      DecReadsWellFormed(Enc(c));
      DecIsStable(Enc(c), s[n..]);
      assert s == Enc(c) + s[n..];
    }
  }
}
