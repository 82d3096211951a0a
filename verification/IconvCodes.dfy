/**
  What the charsets mean, byte for byte: which character each source takes a byte for, and
  which bytes each target writes, given by the numbers of the standards.
 */
module IconvCodes {
  import opened Words
  import opened Utf8
  import opened Charsets
  import opened Iconv
  import opened IconvText

  // ---- Sources of one byte ----

  /** The character that a byte stands for, if it stands for any. */
  predicate Means(from: Source, b: byte, c: nat) {
    match from
    case FromAscii => c == b && b <= 0x7F
    case FromLatin1 => c == b
    case FromLatin9 => IsLatin9(b, c)
    case FromTis620 => if b <= 0xA0 then c == b else c - b == 0x0D60
    case FromJis0201 => if b <= 0xA0 then c == b else b <= 0xDF && c - b == 0xFEC0
    case FromTable(table) =>
      if b <= 0x7F then c == b
      else
        var high, low := table[2 * (b as int - 0x80)], table[2 * (b as int - 0x80) + 1];
        (high != 0xFF || low != 0xFF) && c == 256 * high as int + low
    case _ => false
  }

  predicate IsOneByte(from: Source) {
    !from.FromUtf16? && !from.FromUtf32? && !from.FromWchar? && !from.FromUtf8?
  }

  lemma ByteIsRead(d: Descriptor, b: byte, rest: seq<byte>)
    requires IsOneByte(d.from)
    ensures !Next(d, [b] + rest).Short?
    ensures forall c :: Next(d, [b] + rest) == Char(c, 1) <==> Means(d.from, b, c)
    ensures Next(d, [b] + rest).Char? ==> Next(d, [b] + rest).len == 1
  {
    assert ([b] + rest)[0] == b;
    hide Dec, GetWchar;
  }

  /** The text of a string of bytes that all stand for something. */
  predicate Reads(from: Source, s: seq<byte>, text: seq<nat>) {
    |s| == |text| && forall i :: 0 <= i < |s| ==> Means(from, s[i], text[i])
  }

  /** A string in a one-byte charset is converted character by character into the target's spelling of its text. */
  lemma {:induction false} ConvertsBytes(d: Descriptor, s: seq<byte>, text: seq<nat>)
    requires IsOneByte(d.from) && !d.to.ToUtf32? && Reads(d.from, s, text) && IsText(text)
    ensures Whole(d, s) == Outcome(Spelled(d.to, d.bigEndian, text), |s|, Losses(d.to, text), Done)
    decreases |s|
  {
    if s == [] {
      EmptyIsDone(d, s);
    } else {
      hide Means, Next, Emit, IsLossy;
      ByteIsRead(d, s[0], s[1..]);
      assert [s[0]] + s[1..] == s;
      OneThenRest(d, s, text[0], 1);
      ConvertsBytes(d, s[1..], text[1..]);
    }
  }

  /** At a byte that stands for nothing the conversion stops. */
  lemma StopsAtByte(d: Descriptor, b: byte, rest: seq<byte>)
    requires IsOneByte(d.from) && forall c :: !Means(d.from, b, c)
    ensures Whole(d, [b] + rest) == Stop(IllegalSequence)
  {
    hide Means, Next;
    ByteIsRead(d, b, rest);
  }

  // ---- Sources of more bytes ----

  /** One UTF-16 unit; a surrogate is never accepted, but a high one is waited on until four bytes are there. */
  lemma ReadsUtf16(d: Descriptor, s: seq<byte>, high: byte, low: byte)
    requires d.from.FromUtf16? && |s| >= 2 && s[..2] == if d.from.little then [low, high] else [high, low]
    ensures Next(d, s) ==
            if high in {0xD8, 0xD9, 0xDA, 0xDB} then if |s| < 4 then Short else Illegal
            else if high in {0xDC, 0xDD, 0xDE, 0xDF} then Illegal
            else Char(256 * high as int + low, 2)
  {
    assert s[0] == s[..2][0] && s[1] == s[..2][1];
    hide Dec, GetWchar;
  }

  /** How many bytes a UTF-8 lead announces; FE, FF and the continuation bytes announce none. */
  function Announced(b: byte): nat {
    if b <= 0x7F then 1
    else if 0xC0 <= b <= 0xDF then 2
    else if 0xE0 <= b <= 0xEF then 3
    else if 0xF0 <= b <= 0xF7 then 4
    else if 0xF8 <= b <= 0xFB then 5
    else if 0xFC <= b <= 0xFD then 6
    else 0
  }

  /**
    A UTF-8 source gives exactly the encodings of the scalar values other than U+FFFE and
    U+FFFF, waits for what a lead announces and for ever at a byte that announces nothing,
    and refuses the rest.
   */
  lemma ReadsUtf8(d: Descriptor, s: seq<byte>)
    requires d.from == FromUtf8 && s != []
    ensures Next(d, s).Short? <==> Announced(s[0]) == 0 || |s| < Announced(s[0])
    ensures forall c: nat, n: nat ::
              Next(d, s) == Char(c, n) <==>
              IsScalar(c) && !IsReserved(c) && n == |Enc(c)| && n <= |s| && s[..n] == Enc(c)
  {
    ReadsUtf8Short(d, s);
    forall c: nat, n: nat
      ensures Next(d, s) == Char(c, n) <==>
              IsScalar(c) && !IsReserved(c) && n == |Enc(c)| && n <= |s| && s[..n] == Enc(c)
    {
      ReadsUtf8Char(d, s, c, n);
    }
    hide Next, Enc;
  }

  lemma ReadsUtf8Short(d: Descriptor, s: seq<byte>)
    requires d.from == FromUtf8 && s != []
    ensures Next(d, s).Short? <==> Announced(s[0]) == 0 || |s| < Announced(s[0])
  {
    hide Payload, IsOverlong, IsSurrogate, IsIllegal;
  }

  lemma ReadsUtf8Char(d: Descriptor, s: seq<byte>, c: nat, n: nat)
    requires d.from == FromUtf8 && s != []
    ensures Next(d, s) == Char(c, n) <==>
            IsScalar(c) && !IsReserved(c) && n == |Enc(c)| && n <= |s| && s[..n] == Enc(c)
  {
    if s[0] <= 0x7F {
      AsciiIsOwn(s);
      if c < 0x11_0000 { DecIff(s, c, n); }
    } else if c < 0x11_0000 {
      hide Dec, Enc;
      DecIff(s, c, n);
    }
  }

  lemma AsciiIsOwn(s: seq<byte>)
    requires s != [] && s[0] <= 0x7F
    ensures Dec(s) == Char(s[0], 1)
  {
  }

  /** Less than a unit of UTF-16, UTF-32 or wide characters is waited on. */
  lemma TooFewBytes(d: Descriptor, s: seq<byte>)
    requires s != []
    requires (d.from.FromUtf16? && |s| < 2) || ((d.from.FromUtf32? || d.from.FromWchar?) && |s| < 4)
    ensures Next(d, s) == Short
  {
  }

  /** UTF-32 is unfinished: of four bytes the first is the character. */
  lemma ReadsUtf32(d: Descriptor, s: seq<byte>)
    requires d.from.FromUtf32? && |s| >= 4
    ensures Next(d, s) == Char(s[0], 4)
  {
  }

  /** A wide character in memory: 32 bits in the machine's byte order. */
  lemma WcharBytes(c: nat)
    requires c < 0x11_0000
    ensures PutWchar(c, true) == [0, c / 0x1_0000, c / 0x100 % 0x100, c % 0x100]
    ensures PutWchar(c, false) == [c % 0x100, c / 0x100 % 0x100, c / 0x1_0000, 0]
  {
  }

  // ---- Targets of one byte ----

  /** The bytes for a character in ISO 8859-15: its own if it has one. */
  lemma WritesLatin9(bigEndian: bool, c: nat)
    requires IsScalar(c)
    ensures forall b: byte :: IsLatin9(b, c) ==> Emit(ToLatin9, bigEndian, c) == [b]
    ensures !HasLatin9(c) ==>
              Emit(ToLatin9, bigEndian, c) == if c < 0x100 then [c] else if c == 0xFFFD then [0x2A] else [0x3F]
    ensures IsLossy(ToLatin9, c) <==> c == 0xFFFD
  {
  }

  lemma HasLatin9Iff(c: nat)
    ensures HasLatin9(c) <==> exists b: byte :: IsLatin9(b, c)
  {
    if c in {0x20AC, 0x0160, 0x0161, 0x017D, 0x017E, 0x0152, 0x0153, 0x0178} {
      assert IsLatin9(0xA4, c) || IsLatin9(0xA6, c) || IsLatin9(0xA8, c) || IsLatin9(0xB4, c)
          || IsLatin9(0xB8, c) || IsLatin9(0xBC, c) || IsLatin9(0xBD, c) || IsLatin9(0xBE, c);
    } else if c < 0x100 {
      assert IsLatin9(c, c) <==> HasLatin9(c);
    }
  }

  /** ASCII and ISO 8859-1 write what they have, and an asterisk for everything else. */
  lemma WritesAsterisk(to: Target, bigEndian: bool, c: nat)
    requires (to == ToAscii || to == ToLatin1) && IsScalar(c)
    ensures var kept := c < if to == ToAscii then 0x80 else 0x100;
            && Emit(to, bigEndian, c) == (if kept then [c] else [0x2A])
            && (IsLossy(to, c) <==> !kept)
  {
  }

  /** The text in ISO 8859-15, for a text that it has. */
  predicate IsLatin9String(s: seq<byte>, text: seq<nat>) {
    |s| == |text| && forall i :: 0 <= i < |s| ==> IsLatin9(s[i], text[i])
  }

  lemma {:induction false} SpelledInLatin9(bigEndian: bool, text: seq<nat>, s: seq<byte>)
    requires IsText(text) && IsLatin9String(s, text)
    ensures Spelled(ToLatin9, bigEndian, text) == s && Losses(ToLatin9, text) == 0
  {
    if text == [] {
    } else {
      hide Emit, IsLatin9, IsLossy;
      WritesLatin9(bigEndian, text[0]);
      assert IsLatin9(s[0], text[0]);
      SpelledInLatin9(bigEndian, text[1..], s[1..]);
      NotLossy(s[0], text[0]);
      assert s == [s[0]] + s[1..];
    }
  }

  lemma NotLossy(b: byte, c: nat)
    requires IsLatin9(b, c)
    ensures !IsLossy(ToLatin9, c)
  {
  }

  /** Into ISO 8859-15, from any source that can spell the text: the standard's bytes and nothing lost. */
  lemma IntoLatin9(a: Target, bigEndian: bool, text: seq<nat>, s: seq<byte>)
    requires !a.ToUtf32? && IsText(text) && CanSpell(a, text) && IsLatin9String(s, text)
    ensures var input := Spelled(a, bigEndian, text);
            Whole(Descriptor(Reader(a), ToLatin9, bigEndian), input) == Outcome(s, |input|, 0, Done)
  {
    hide Spelled, Losses, Whole;
    Transcodes(a, ToLatin9, bigEndian, text);
    SpelledInLatin9(bigEndian, text, s);
  }

  /** Out of ISO 8859-15, into any target: the standard's characters. */
  lemma OutOfLatin9(d: Descriptor, s: seq<byte>, text: seq<nat>)
    requires d.from == FromLatin9 && !d.to.ToUtf32? && IsLatin9String(s, text)
    ensures IsText(text)
    ensures Whole(d, s) == Outcome(Spelled(d.to, d.bigEndian, text), |s|, Losses(d.to, text), Done)
  {
    ConvertsBytes(d, s, text);
  }
}
