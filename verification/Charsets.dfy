/** One character of each charset: how the converter reads it and how it writes it. */
module Charsets {
  import opened Words
  import opened Utf8

  /** The upper half of an 8-bit charset: 128 codes, most significant byte first. */
  type Table = s: seq<byte> | |s| == 256 witness seq(256, _ => 0)

  datatype Source =
    | FromUtf16(little: bool)
    | FromUtf32
    | FromWchar
    | FromUtf8
    | FromAscii
    | FromLatin1
    | FromLatin9
    | FromTis620
    | FromJis0201
    | FromTable(table: Table)

  datatype Target =
    | ToUtf16(little: bool)
    | ToUtf32
    | ToWchar
    | ToUtf8
    | ToAscii
    | ToLatin1
    | ToLatin9

  // ---- Numbers in memory ----

  function Get16(s: seq<byte>, i: nat, little: bool): (c: nat)
    requires i + 2 <= |s|
    ensures c < 0x1_0000
  {
    if little then s[i + 1] as int * 256 + s[i] else s[i] as int * 256 + s[i + 1]
  }

  /** The two low bytes of a code. */
  function Put16(c: nat, little: bool): (s: seq<byte>)
    ensures |s| == 2
  {
    if little then [c % 256, c / 256 % 256] else [c / 256 % 256, c % 256]
  }

  lemma Get16Put16(c: nat, little: bool, tail: seq<byte>)
    requires c < 0x1_0000
    ensures Get16(Put16(c, little) + tail, 0, little) == c
  {
  }

  function Reversed4(s: seq<byte>): (r: seq<byte>)
    requires |s| == 4
    ensures |r| == 4
  {
    [s[3], s[2], s[1], s[0]]
  }

  function GetWchar(s: seq<byte>, bigEndian: bool): (c: nat)
    requires |s| == 4
  {
    FromBe32(if bigEndian then s else Reversed4(s))
  }

  function PutWchar(c: nat, bigEndian: bool): (s: seq<byte>)
    ensures |s| == 4
  {
    if bigEndian then ToBe32(c) else Reversed4(ToBe32(c))
  }

  lemma GetWcharPutWchar(c: nat, bigEndian: bool)
    requires c < UINT32
    ensures GetWchar(PutWchar(c, bigEndian), bigEndian) == c
  {
    Be32RoundTrip(c);
    hide ToBe32, FromBe32;
    assert Reversed4(Reversed4(ToBe32(c))) == ToBe32(c);
  }

  // ---- Reading ----

  /** The codes that ISO 8859-15 has in other places than ISO 8859-1. */
  function Latin9Code(b: byte): (c: nat)
  {
    match b
    case 0xA4 => 0x20AC
    case 0xA6 => 0x0160
    case 0xA8 => 0x0161
    case 0xB4 => 0x017D
    case 0xB8 => 0x017E
    case 0xBC => 0x0152
    case 0xBD => 0x0153
    case 0xBE => 0x0178
    case _ => b
  }

  /** The sources whose bytes below 80 are taken as they are. */
  predicate IsAsciiSuperset(from: Source) {
    !from.FromUtf16? && !from.FromUtf32? && !from.FromWchar?
  }

  function InRange(c: nat, len: nat): Read {
    if IsScalar(c) then Char(c, len) else Illegal
  }

  function One(from: Source, bigEndian: bool, s: seq<byte>): (r: Read)
    requires s != []
    ensures r.Char? ==> 1 <= r.len <= 4 && r.len <= |s| && r.c < 0x11_0000
  {
    var b: nat := s[0];
    if IsAsciiSuperset(from) && b < 0x80 then Char(b, 1) else
      match from
      case FromWchar => if |s| < 4 then Short else InRange(GetWchar(s[..4], bigEndian), 4)
      case FromUtf8 => (match Dec(s) case Char(c, len) => InRange(c, len) case r => r)
      case FromAscii => Illegal
      case FromLatin9 => Char(Latin9Code(s[0]), 1)
      case FromLatin1 => Char(b, 1)
      case FromTis620 => Char(if b >= 0xA1 then b + 0x0E01 - 0xA1 else b, 1)
      case FromJis0201 =>
        if b < 0xA1 then Char(b, 1) else if b <= 0xDF then Char(b + 0xFF61 - 0xA1, 1) else Illegal
      case FromUtf16(little) =>
        if |s| < 2 then Short else
          var c := Get16(s, 0, little);
          if 0xDC00 <= c < 0xE000 then Illegal
          else if 0xD800 <= c < 0xDC00 then
            // A high surrogate waits for its partner, but the range check for the partner looks at it again.
            if |s| < 4 then Short else Illegal
          else InRange(c, 2)
      case FromUtf32 => if |s| < 4 then Short else InRange(b, 4)
      case FromTable(table) =>
        var c := Get16(table, 2 * (b - 0x80), false);
        if c == 0xFFFF then Illegal else Char(c, 1)
  }

  /** Once a character or an error is found, more input changes nothing. */
  lemma OneIsStable(from: Source, bigEndian: bool, s: seq<byte>, more: seq<byte>)
    requires s != [] && !One(from, bigEndian, s).Short?
    ensures One(from, bigEndian, s + more) == One(from, bigEndian, s)
  {
    var t := s + more;
    hide Dec, GetWchar, Latin9Code, IsScalar;
    match from
    case FromUtf8 => if s[0] >= 0x80 { DecIsStable(s, more); }
    case FromWchar => assert t[..4] == s[..4];
    case _ =>
  }

  /** A character is recognised by its own bytes. */
  lemma OneIsLocal(from: Source, bigEndian: bool, s: seq<byte>)
    requires s != [] && One(from, bigEndian, s).Char?
    ensures var r := One(from, bigEndian, s); One(from, bigEndian, s[..r.len]) == r
  {
    var r := One(from, bigEndian, s);
    var u := s[..r.len];
    hide GetWchar, Latin9Code;
    match from
    case FromUtf8 =>
      if s[0] >= 0x80 {
        DecIff(s, r.c, r.len);
        DecIff(u, r.c, r.len);
        assert u[..r.len] == u;
      }
    case FromWchar => assert u[..4] == s[..4];
    case _ =>
  }

  // ---- Writing ----

  /** A code of ISO 8859-15 above FF; others become a question mark. */
  function Latin9Translit(c: nat): (b: byte)
  {
    match c
    case 0x20AC => 0xA4
    case 0x0160 => 0xA6
    case 0x0161 => 0xA8
    case 0x017D => 0xB4
    case 0x017E => 0xB8
    case 0x0152 => 0xBC
    case 0x0153 => 0xBD
    case 0x0178 => 0xBE
    case _ => 0x3F
  }

  /** The code that a one-byte target stores, if it is below 100. */
  function Narrowed(to: Target, c: nat): nat {
    if to.ToLatin1? then c else
      var d := if to.ToAscii? && c > 0x7F then 0xFFFD else c;
      if d >= 0x100 && d != 0xFFFD then Latin9Translit(d) else d
  }

  function NarrowByte(to: Target, c: nat): byte {
    if Narrowed(to, c) < 0x100 then Narrowed(to, c) else 0x2A
  }

  /** Whether the character is replaced by an asterisk and counted. */
  predicate IsLossy(to: Target, c: nat) {
    (to.ToAscii? || to.ToLatin1? || to.ToLatin9?) && Narrowed(to, c) >= 0x100
  }

  function Emit(to: Target, bigEndian: bool, c: nat): (s: seq<byte>)
    requires !to.ToUtf32? && c < 0x11_0000
    ensures 1 <= |s| <= 4
  {
    match to
    case ToWchar => PutWchar(c, bigEndian)
    case ToUtf8 => Enc(c)
    case ToUtf16(little) =>
      if c < 0x1_0000 then Put16(c, little)
      else Put16(0xD800 + c / 1024, little) + Put16(0xDC00 + c % 1024, little)
    case _ => [NarrowByte(to, c)]
  }

  // ---- Which characters survive ----

  /** The source that reads what a target writes. */
  function Reader(to: Target): Source {
    match to
    case ToUtf16(little) => FromUtf16(little)
    case ToUtf32 => FromUtf32
    case ToWchar => FromWchar
    case ToUtf8 => FromUtf8
    case ToAscii => FromAscii
    case ToLatin1 => FromLatin1
    case ToLatin9 => FromLatin9
  }

  /** The repertoire of ISO 8859-15: that of ISO 8859-1 without eight characters, and eight others. */
  predicate HasLatin9(c: nat) {
    || (c < 0x100 && c !in {0xA4, 0xA6, 0xA8, 0xB4, 0xB8, 0xBC, 0xBD, 0xBE})
    || c in {0x20AC, 0x0160, 0x0161, 0x017D, 0x017E, 0x0152, 0x0153, 0x0178}
  }

  /** Byte `b` of ISO 8859-15 is the character `c`. */
  predicate IsLatin9(b: byte, c: nat) {
    || (c == b && HasLatin9(c))
    || (b == 0xA4 && c == 0x20AC) || (b == 0xA6 && c == 0x0160) || (b == 0xA8 && c == 0x0161)
    || (b == 0xB4 && c == 0x017D) || (b == 0xB8 && c == 0x017E) || (b == 0xBC && c == 0x0152)
    || (b == 0xBD && c == 0x0153) || (b == 0xBE && c == 0x0178)
  }

  predicate Codable(to: Target, c: nat) {
    match to
    case ToUtf16(_) => c < 0x1_0000
    case ToUtf32 => false
    case ToWchar => true
    case ToUtf8 => !IsReserved(c)
    case ToAscii => c < 0x80
    case ToLatin1 => c < 0x100
    case ToLatin9 => HasLatin9(c)
  }

  ghost predicate ComesBack(to: Target, bigEndian: bool, c: nat)
    requires !to.ToUtf32? && c < 0x11_0000
  {
    var s := Emit(to, bigEndian, c);
    forall tail :: One(Reader(to), bigEndian, s + tail) == Char(c, |s|)
  }

  lemma WcharComesBack(bigEndian: bool, c: nat, tail: seq<byte>)
    requires IsScalar(c)
    ensures One(FromWchar, bigEndian, PutWchar(c, bigEndian) + tail) == Char(c, 4)
  {
    var s := PutWchar(c, bigEndian);
    GetWcharPutWchar(c, bigEndian);
    hide PutWchar, GetWchar;
    assert (s + tail)[..4] == s;
  }

  lemma Utf16ComesBack(little: bool, bigEndian: bool, c: nat, tail: seq<byte>)
    requires IsScalar(c)
    ensures var s := Emit(ToUtf16(little), bigEndian, c);
            One(FromUtf16(little), bigEndian, s + tail) == Char(c, |s|) <==> c < 0x1_0000
  {
    if c < 0x1_0000 {
      Get16Put16(c, little, tail);
    } else {
      var high, low := 0xD800 + c / 1024, Put16(0xDC00 + c % 1024, little);
      assert Put16(high, little) + low + tail == Put16(high, little) + (low + tail);
      Get16Put16(high, little, low + tail);
    }
  }

  lemma Utf8ComesBack(bigEndian: bool, c: nat, tail: seq<byte>)
    requires IsScalar(c)
    ensures One(FromUtf8, bigEndian, Enc(c) + tail) == Char(c, |Enc(c)|) <==> !IsReserved(c)
  {
    var s := Enc(c) + tail;
    assert s[..|Enc(c)|] == Enc(c);
    if c <= 0x7F {
      assert s[0] == c;
    } else {
      EncIsWellFormed(c);
      assert s[0] == Enc(c)[0] >= 0x80;
      DecIff(s, c, |Enc(c)|);
      hide Dec, Enc;
    }
  }

  lemma NarrowComesBack(to: Target, bigEndian: bool, c: nat, tail: seq<byte>)
    requires to.ToAscii? || to.ToLatin1? || to.ToLatin9?
    requires IsScalar(c)
    ensures One(Reader(to), bigEndian, Emit(to, bigEndian, c) + tail) == Char(c, 1) <==> Codable(to, c)
  {
  }

  lemma ComesBackBefore(to: Target, bigEndian: bool, c: nat, tail: seq<byte>)
    requires !to.ToUtf32? && IsScalar(c)
    ensures var s := Emit(to, bigEndian, c);
            One(Reader(to), bigEndian, s + tail) == Char(c, |s|) <==> Codable(to, c)
  {
    match to
    case ToWchar => WcharComesBack(bigEndian, c, tail);
    case ToUtf16(little) => Utf16ComesBack(little, bigEndian, c, tail);
    case ToUtf8 => Utf8ComesBack(bigEndian, c, tail);
    case _ => NarrowComesBack(to, bigEndian, c, tail);
  }

  /** A character can be read back from what is written for it exactly when it is codable. */
  lemma ComesBackIff(to: Target, bigEndian: bool, c: nat)
    requires !to.ToUtf32? && IsScalar(c)
    ensures ComesBack(to, bigEndian, c) <==> Codable(to, c)
  {
    forall tail
      ensures var s := Emit(to, bigEndian, c);
              One(Reader(to), bigEndian, s + tail) == Char(c, |s|) <==> Codable(to, c)
    {
      ComesBackBefore(to, bigEndian, c, tail);
    }
    hide One, Emit, Codable;
    if ComesBack(to, bigEndian, c) {
      var s := Emit(to, bigEndian, c);
      assert One(Reader(to), bigEndian, s + []) == Char(c, |s|);
    }
  }

  // ---- UTF-16 ----

  /** UTF-16 as RFC 2781, section 2.1, defines it. */
  function StandardUtf16(c: nat, little: bool): seq<byte> {
    if c < 0x1_0000 then Put16(c, little)
    else Put16(0xD800 + (c - 0x1_0000) / 1024, little) + Put16(0xDC00 + (c - 0x1_0000) % 1024, little)
  }

  /** Beyond the basic plane the converter never writes the standard's surrogate pair. */
  lemma Utf16IsStandardIff(c: nat, little: bool)
    requires IsScalar(c)
    ensures Emit(ToUtf16(little), false, c) == StandardUtf16(c, little) <==> c < 0x1_0000
  {
    if c >= 0x1_0000 {
      var mine, right := 0xD800 + c / 1024, 0xD800 + (c - 0x1_0000) / 1024;
      assert mine == right + 64;
      var a, b := Emit(ToUtf16(little), false, c), StandardUtf16(c, little);
      assert a[..2] == Put16(mine, little) && b[..2] == Put16(right, little);
      Get16Put16(mine, little, []);
      Get16Put16(right, little, []);
    }
  }

  function Swapped(s: seq<byte>): seq<byte> {
    if |s| < 2 then s else [s[1], s[0]] + Swapped(s[2..])
  }

  lemma EmitSwapped(bigEndian: bool, c: nat, tail: seq<byte>)
    requires c < 0x11_0000
    ensures Swapped(Emit(ToUtf16(false), bigEndian, c) + tail) == Emit(ToUtf16(true), bigEndian, c) + Swapped(tail)
  {
    hide Swapped, Put16;
    if c < 0x1_0000 {
      SwappedUnit(c, tail);
    } else {
      SwappedPair(0xD800 + c / 1024, 0xDC00 + c % 1024, tail);
    }
  }

  lemma SwappedPair(high: nat, low: nat, tail: seq<byte>)
    ensures Swapped(Put16(high, false) + Put16(low, false) + tail)
         == Put16(high, true) + Put16(low, true) + Swapped(tail)
  {
    hide Swapped, Put16;
    var h, l, h', l' := Put16(high, false), Put16(low, false), Put16(high, true), Put16(low, true);
    SwappedUnit(low, tail);
    SwappedUnit(high, l + tail);
    assert h + l + tail == h + (l + tail);
    assert h' + l' + Swapped(tail) == h' + (l' + Swapped(tail));
  }

  lemma SwappedUnit(c: nat, tail: seq<byte>)
    ensures Swapped(Put16(c, false) + tail) == Put16(c, true) + Swapped(tail)
  {
    assert (Put16(c, false) + tail)[2..] == tail;
  }
}
