/** What conversion does to texts: output that is well formed, and texts that come back. */
module IconvText {
  import opened Words
  import opened Utf8
  import opened Charsets
  import opened Iconv

  // ---- Well-formed output ----

  /** A sequence of well-formed characters. */
  predicate IsUtf8Text(s: seq<byte>)
    decreases |s|
  {
    s == [] || exists n :: 1 <= n <= 4 && n <= |s| && IsUtf8Char(s[..n]) && IsUtf8Text(s[n..])
  }

  lemma CharBeforeText(c: seq<byte>, s: seq<byte>)
    requires IsUtf8Char(c) && IsUtf8Text(s)
    ensures IsUtf8Text(c + s)
  {
    hide IsUtf8Char;
    assert 1 <= |c| <= 4 by { CharLength(c); }
    assert (c + s)[..|c|] == c && (c + s)[|c|..] == s;
  }

  lemma CharLength(c: seq<byte>)
    requires IsUtf8Char(c)
    ensures 1 <= |c| <= 4
  {
  }

  /** A source whose characters are all scalar values: no entry of its table is a surrogate. */
  predicate NoSurrogates(from: Source) {
    from.FromTable? ==> forall i :: 0 <= i < 128 ==> !(0xD800 <= Entry(from.table, i) < 0xE000)
  }

  function Entry(table: Table, i: nat): nat
    requires i < 128
  {
    Get16(table, 2 * i, false)
  }

  lemma ReadsScalars(d: Descriptor, s: seq<byte>)
    requires NoSurrogates(d.from) && s != [] && Next(d, s).Char?
    ensures IsScalar(Next(d, s).c)
  {
    hide Dec, GetWchar;
    if d.from.FromTable? && s[0] >= 0x80 {
      assert Next(d, s).c == Entry(d.from.table, s[0] - 0x80);
    }
  }

  lemma {:induction false} WritesUtf8(d: Descriptor, s: seq<byte>)
    requires d.to == ToUtf8 && NoSurrogates(d.from)
    ensures IsUtf8Text(Whole(d, s).out)
    decreases |s|
  {
    hide IsUtf8Text, IsUtf8Char, Next, NoSurrogates, Enc;
    if Takes(d, s, 4) {
      var w := TakesOne(d, s, 4);
      var c := Next(d, s).c;
      ReadsScalars(d, s);
      EncIsWellFormed(c);
      WritesUtf8(d, s[w.used..]);
      CharBeforeText(Enc(c), Whole(d, s[w.used..]).out);
    } else {
      NoneWritten(d, s);
    }
  }

  lemma NoneWritten(d: Descriptor, s: seq<byte>)
    requires !Takes(d, s, 4)
    ensures Whole(d, s).out == [] && IsUtf8Text([])
  {
    TakesNone(d, s, 4);
    hide Next, Written;
  }

  /** Whatever is read, and however little room there is, a UTF-8 target gets whole well-formed characters. */
  lemma OutputIsUtf8(d: Descriptor, s: seq<byte>, room: nat)
    requires d.to == ToUtf8 && NoSurrogates(d.from)
    ensures IsUtf8Text(Limited(d, s, room).out)
  {
    hide Whole, Limited, IsUtf8Text;
    WithinBounds(d, s, room);
    NothingHalfDone(d, s, room);
    WritesUtf8(d, s[..Limited(d, s, room).used]);
  }

  lemma SurrogateIsNotText(c: nat)
    requires 0xD800 <= c < 0xE000
    ensures !IsUtf8Text(Enc(c))
  {
    var s := Enc(c);
    assert c / 64 / 64 == 13 && c / 64 % 64 >= 32;
    assert s[0] == 0xED && s[1] >= 0xA0 && |s| == 3;
    forall n | 1 <= n <= 3 ensures !IsUtf8Char(s[..n]) {}
  }

  /** Output is well formed for every input exactly when the source has no surrogates. */
  lemma OutputIsUtf8Iff(d: Descriptor)
    requires d.to == ToUtf8
    ensures (forall s :: IsUtf8Text(Whole(d, s).out)) <==> NoSurrogates(d.from)
  {
    if NoSurrogates(d.from) {
      forall s ensures IsUtf8Text(Whole(d, s).out) { WritesUtf8(d, s); }
    } else {
      var i :| 0 <= i < 128 && 0xD800 <= Entry(d.from.table, i) < 0xE000;
      SurrogateComesOut(d, i);
    }
  }

  lemma SurrogateComesOut(d: Descriptor, i: nat)
    requires d.to == ToUtf8 && d.from.FromTable? && i < 128 && 0xD800 <= Entry(d.from.table, i) < 0xE000
    ensures !IsUtf8Text(Whole(d, [0x80 + i]).out)
  {
    var s := [(0x80 + i) as byte];
    var c := Entry(d.from.table, i);
    assert Next(d, s) == Char(c, 1);
    hide Next, Enc, IsUtf8Text, Entry;
    assert s[1..] == [];
    EmptyIsDone(d, s[1..]);
    assert Whole(d, s).out == Enc(c) + [] == Enc(c);
    SurrogateIsNotText(c);
  }

  // ---- Texts that both sides can spell ----

  /** How a text is written in a charset. */
  function Spelled(to: Target, bigEndian: bool, text: seq<nat>): seq<byte>
    requires !to.ToUtf32? && IsText(text)
  {
    if text == [] then [] else Emit(to, bigEndian, text[0]) + Spelled(to, bigEndian, text[1..])
  }

  predicate IsText(text: seq<nat>) {
    forall i :: 0 <= i < |text| ==> IsScalar(text[i])
  }

  predicate CanSpell(to: Target, text: seq<nat>) {
    forall i :: 0 <= i < |text| ==> Codable(to, text[i])
  }

  function Losses(to: Target, text: seq<nat>): nat {
    if text == [] then 0 else (if IsLossy(to, text[0]) then 1 else 0) + Losses(to, text[1..])
  }

  /** From one charset to another, a text the first can spell becomes the second's spelling of it. */
  lemma {:induction false} Transcodes(a: Target, b: Target, bigEndian: bool, text: seq<nat>)
    requires !a.ToUtf32? && !b.ToUtf32? && IsText(text) && CanSpell(a, text)
    ensures Whole(Descriptor(Reader(a), b, bigEndian), Spelled(a, bigEndian, text))
         == Outcome(Spelled(b, bigEndian, text), |Spelled(a, bigEndian, text)|, Losses(b, text), Done)
  {
    var d := Descriptor(Reader(a), b, bigEndian);
    var s := Spelled(a, bigEndian, text);
    if text == [] {
      EmptyIsDone(d, s);
    } else {
      hide Emit, Codable, IsLossy, One;
      var rest := Spelled(a, bigEndian, text[1..]);
      ComesBackIff(a, bigEndian, text[0]);
      var u := Emit(a, bigEndian, text[0]);
      assert One(Reader(a), bigEndian, u + rest) == Char(text[0], |u|);
      assert s[|u|..] == rest;
      Transcodes(a, b, bigEndian, text[1..]);
      OneThenRest(d, s, text[0], |u|);
    }
  }

  lemma OneThenRest(d: Descriptor, s: seq<byte>, c: nat, len: nat)
    requires s != [] && Next(d, s) == Char(c, len) && !d.to.ToUtf32?
    ensures Whole(d, s) == Then(Written(d, c, len), Whole(d, s[len..]))
  {
    hide Next, Written;
  }

  /** Converting a text that both charsets can spell, and converting it back, gives the same bytes. */
  lemma ThereAndBack(a: Target, b: Target, bigEndian: bool, text: seq<nat>)
    requires !a.ToUtf32? && !b.ToUtf32? && IsText(text) && CanSpell(a, text) && CanSpell(b, text)
    ensures var s := Spelled(a, bigEndian, text);
            var there := Whole(Descriptor(Reader(a), b, bigEndian), s);
            var back := Whole(Descriptor(Reader(b), a, bigEndian), there.out);
            && there.status == back.status == Done
            && there.used == |s| && back.used == |there.out| && back.out == s
  {
    Transcodes(a, b, bigEndian, text);
    Transcodes(b, a, bigEndian, text);
  }

  lemma FirstChar(s: seq<byte>) returns (c: nat, n: nat)
    requires IsUtf8Text(s) && s != []
    ensures 1 <= n <= |s| && IsScalar(c) && Enc(c) == s[..n] && IsUtf8Text(s[n..])
  {
    hide IsUtf8Char, Enc, Code;
    n :| 1 <= n <= 4 && n <= |s| && IsUtf8Char(s[..n]) && IsUtf8Text(s[n..]);
    WellFormedIsEnc(s[..n]);
    c := Code(s[..n]);
  }

  /** Every well-formed UTF-8 string spells a text. */
  lemma {:induction false} Utf8TextSpells(s: seq<byte>, bigEndian: bool) returns (text: seq<nat>)
    requires IsUtf8Text(s)
    ensures IsText(text) && Spelled(ToUtf8, bigEndian, text) == s
    decreases |s|
  {
    hide Enc, IsUtf8Text, IsScalar;
    text := [];
    if s == [] {
    } else {
      var c, n := FirstChar(s);
      var rest := Utf8TextSpells(s[n..], bigEndian);
      text := [c] + rest;
      assert text[1..] == rest;
    }
  }

  predicate IsBasicText(text: seq<nat>) {
    forall i :: 0 <= i < |text| ==> IsScalar(text[i]) && text[i] < 0xFFFE
  }

  /** UTF-8 to UTF-16 and back, for text of the basic plane without U+FFFE and U+FFFF. */
  lemma Utf8Utf16AndBack(little: bool, bigEndian: bool, text: seq<nat>)
    requires IsBasicText(text)
    ensures IsText(text)
    ensures var s := Spelled(ToUtf8, bigEndian, text);
            var there := Whole(Descriptor(FromUtf8, ToUtf16(little), bigEndian), s);
            var back := Whole(Descriptor(FromUtf16(little), ToUtf8, bigEndian), there.out);
            && there.status == back.status == Done
            && there.used == |s| && back.used == |there.out| && back.out == s
            && there.out == Spelled(ToUtf16(little), bigEndian, text)
  {
    forall i | 0 <= i < |text| ensures Codable(ToUtf8, text[i]) && Codable(ToUtf16(little), text[i]) {}
    ThereAndBack(ToUtf8, ToUtf16(little), bigEndian, text);
    Transcodes(ToUtf8, ToUtf16(little), bigEndian, text);
  }

  /** The little-endian spelling is the big-endian one with the bytes of each pair exchanged. */
  lemma {:induction false} LittleIsSwapped(bigEndian: bool, text: seq<nat>)
    requires IsText(text)
    ensures Spelled(ToUtf16(true), bigEndian, text) == Swapped(Spelled(ToUtf16(false), bigEndian, text))
  {
    if text == [] {
    } else {
      LittleIsSwapped(bigEndian, text[1..]);
      EmitSwapped(bigEndian, text[0], Spelled(ToUtf16(false), bigEndian, text[1..]));
    }
  }

  /** The UTF-16 spelling is the standard's exactly for text of the basic plane. */
  function StandardSpelling(little: bool, text: seq<nat>): seq<byte>
    requires IsText(text)
  {
    if text == [] then [] else StandardUtf16(text[0], little) + StandardSpelling(little, text[1..])
  }

  lemma {:induction false} SpellsStandardUtf16(little: bool, text: seq<nat>)
    requires IsText(text)
    ensures Spelled(ToUtf16(little), false, text) == StandardSpelling(little, text)
       <==> forall i :: 0 <= i < |text| ==> text[i] < 0x1_0000
  {
    if text == [] {
    } else {
      var a, b := Emit(ToUtf16(little), false, text[0]), StandardUtf16(text[0], little);
      var a', b' := Spelled(ToUtf16(little), false, text[1..]), StandardSpelling(little, text[1..]);
      Utf16IsStandardIff(text[0], little);
      SpellsStandardUtf16(little, text[1..]);
      assert |a| == |b|;
      hide Emit, StandardUtf16;
      assert a + a' == b + b' <==> a == b && a' == b' by {
        if a + a' == b + b' {
          assert (a + a')[..|a|] == a && (b + b')[..|b|] == b && (a + a')[|a|..] == a' && (b + b')[|b|..] == b';
        }
      }
      AllSplit(text);
    }
  }

  lemma AllSplit(text: seq<nat>)
    requires text != []
    ensures (forall i :: 0 <= i < |text| ==> text[i] < 0x1_0000)
       <==> text[0] < 0x1_0000 && forall i :: 0 <= i < |text[1..]| ==> text[1..][i] < 0x1_0000
  {
    if text[0] < 0x1_0000 && forall i :: 0 <= i < |text[1..]| ==> text[1..][i] < 0x1_0000 {
      forall i | 0 <= i < |text| ensures text[i] < 0x1_0000 { if i > 0 { assert text[i] == text[1..][i - 1]; } }
    }
  }
}
