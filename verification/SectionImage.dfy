/**
  Sections as they are written: the header field by field, then the payload.  The accessors
  and the search of module SectionScan read them back.
 */
module SectionImage {
  import opened Words
  import opened Wrappers
  import opened Crc
  import Crc32
  import opened SectionScan
  import DumpImage

  type Word32 = n: int | 0 <= n < UINT32

  datatype Section = Section(kind: byte, index: byte, flags: seq<byte>, name: seq<byte>, payload: seq<byte>,
                             dataSum: Word32, headerSum: Word32)

  predicate IsProper(s: Section) {
    |s.flags| == 2 && |s.name| <= 16 && |s.payload| < UINT32
  }

  /** Four bytes, the least significant first. */
  function Le32(n: Word32): (bytes: seq<byte>)
    ensures |bytes| == 4
  {
    [n % 0x100, n / 0x100 % 0x100, n / 0x1_0000 % 0x100, n / 0x100_0000]
  }

  /** "ConF", type, index, flags, the name padded with zeros, payload length, data sum. */
  function SummedHeader(s: Section): (bytes: seq<byte>)
    requires IsProper(s)
    ensures |bytes| == 32
  {
    [0x43, 0x6F, 0x6E, 0x46, s.kind, s.index] + s.flags + s.name + seq(16 - |s.name|, _ => 0)
    + Le32(|s.payload|) + Le32(s.dataSum)
  }

  function Bytes(s: Section): (bytes: seq<byte>)
    requires IsProper(s)
    ensures |bytes| == 36 + |s.payload|
  {
    SummedHeader(s) + Le32(s.headerSum) + s.payload
  }

  lemma FromLe32(n: Word32)
    ensures FromLe(Le32(n)) == n
  {
    var b := Le32(n);
    var n1 := n / 0x100;
    var n2 := n1 / 0x100;
    assert n / 0x1_0000 == n2 && n / 0x100_0000 == n2 / 0x100;
    var three, two, one := b[1..], b[2..], b[3..];
    assert three[1..] == two && two[1..] == one && one[1..] == [];
    assert FromLe(one) == b[3];
    assert FromLe(two) == b[2] + 256 * FromLe(one);
    assert FromLe(three) == b[1] + 256 * FromLe(two);
  }

  /** The part of a string in front of its first NUL. */
  predicate IsCutAtNul(s: seq<byte>, cut: seq<byte>) {
    cut <= s && 0 !in cut && (|cut| < |s| ==> s[|cut|] == 0)
  }

  lemma {:induction false} CStringCuts(s: seq<byte>)
    ensures IsCutAtNul(s, CString(s))
  {
    if s == [] || s[0] == 0 {
    } else {
      CStringCuts(s[1..]);
      assert s == [s[0]] + s[1..];
    }
  }

  lemma CutIsUnique(s: seq<byte>, a: seq<byte>, b: seq<byte>)
    requires IsCutAtNul(s, a) && IsCutAtNul(s, b)
    ensures a == b
  {
    assert a == s[..|a|] && b == s[..|b|];
  }

  // ---- Reading back ----

  /** The section `s` is in the image at `off`. */
  predicate Holds(img: seq<byte>, off: nat, s: Section)
    requires IsProper(s)
  {
    off + |Bytes(s)| <= |img| && img[off..off + |Bytes(s)|] == Bytes(s)
  }

  lemma HeldByte(img: seq<byte>, off: nat, s: Section, i: nat)
    requires IsProper(s) && Holds(img, off, s) && i < |Bytes(s)|
    ensures img[off + i] == Bytes(s)[i]
  {
    assert img[off..off + |Bytes(s)|][i] == img[off + i];
  }

  lemma SliceOfSlice(img: seq<byte>, off: nat, n: nat, i: nat, j: nat)
    requires i <= j <= n && off + n <= |img|
    ensures img[off..off + n][i..j] == img[off + i..off + j]
  {
    var a, b := img[off..off + n][i..j], img[off + i..off + j];
    forall k | 0 <= k < j - i ensures a[k] == b[k] {
      assert a[k] == img[off..off + n][i + k] == img[off + (i + k)];
    }
  }

  lemma HeldSlice(img: seq<byte>, off: nat, s: Section, i: nat, j: nat)
    requires IsProper(s) && Holds(img, off, s) && i <= j <= |Bytes(s)|
    ensures img[off + i..off + j] == Bytes(s)[i..j]
  {
    hide Bytes;
    var n := |Bytes(s)|;
    SliceOfSlice(img, off, n, i, j);
  }

  lemma Layout(s: Section)
    requires IsProper(s)
    ensures var b := Bytes(s);
            && b[0..4] == [0x43, 0x6F, 0x6E, 0x46] && b[5] == s.index
            && b[8..24] == s.name + seq(16 - |s.name|, _ => 0)
            && b[24..28] == Le32(|s.payload|) && b[28..32] == Le32(s.dataSum) && b[32..36] == Le32(s.headerSum)
            && b[..32] == SummedHeader(s) && b[36..] == s.payload
  {
    hide Le32;
  }

  /** Every section that is in the image is found by the accessors, with its own field values. */
  lemma FieldsAreRead(img: seq<byte>, off: nat, s: Section)
    requires IsProper(s) && Holds(img, off, s)
    ensures IsHeader(img, off)
    ensures Index(img, off) == s.index && PayloadLength(img, off) == |s.payload| && End(img, off) == off + |Bytes(s)|
    ensures IsCutAtNul(s.name, Name(img, off))
    ensures FromLe(img[off + 28..off + 32]) == s.dataSum && FromLe(img[off + 32..off + 36]) == s.headerSum
  {
    Layout(s);
    HeldSlice(img, off, s, 0, 4);
    HeldByte(img, off, s, 5);
    HeldSlice(img, off, s, 8, 24);
    HeldSlice(img, off, s, 24, 28);
    HeldSlice(img, off, s, 28, 32);
    HeldSlice(img, off, s, 32, 36);
    FromLe32(|s.payload|);
    FromLe32(s.dataSum);
    FromLe32(s.headerSum);
    PaddedName(s.name, seq(16 - |s.name|, _ => 0));
    hide Bytes, Le32, FromLe, CString;
  }

  lemma PaddedName(name: seq<byte>, zeros: seq<byte>)
    requires forall i :: 0 <= i < |zeros| ==> zeros[i] == 0
    ensures IsCutAtNul(name, CString(name + zeros))
  {
    var padded := name + zeros;
    var cut := CString(padded);
    CStringCuts(padded);
    hide CString;
    assert cut == padded[..|cut|];
    assert forall i :: 0 <= i < |cut| ==> padded[i] == cut[i] != 0;
    assert |name| < |padded| ==> padded[|name|] == 0;
    assert padded[..|cut|] == name[..|cut|];
  }

  /** Which searches a written section can answer: any index below 0, its own, or 256 for the last one. */
  lemma WhoWantsIt(img: seq<byte>, off: nat, s: Section, want: Want)
    requires IsProper(s) && Holds(img, off, s) && IsHeader(img, off)
    ensures IsCandidate(img, want, off)
       <==> (want.index < 0 || want.index == s.index || want.index == 256)
            && (want.name.None? || IsCutAtNul(s.name, want.name.value))
  {
    FieldsAreRead(img, off, s);
    if want.name.Some? && IsCutAtNul(s.name, want.name.value) { CutIsUnique(s.name, want.name.value, Name(img, off)); }
    hide Index, Name, IsHeader, Holds;
  }

  // ---- Searching ----

  lemma {:induction false} ParseSkips(img: seq<byte>, from: nat, off: nat)
    requires from <= off && forall q :: from <= q < off ==> !IsHeader(img, q)
    requires off + HEADER_SIZE <= |img|
    ensures ParseFrom(img, from) == ParseFrom(img, off)
    decreases off - from
  {
    if from == off {
    } else {
      hide IsHeader;
      ParseStep(img, from);
      ParseSkips(img, from + 1, off);
    }
  }

  /** A section is the first of the parse when no header comes before it. */
  lemma ParsedFirst(img: seq<byte>, from: nat, off: nat, s: Section)
    requires IsProper(s) && Holds(img, off, s) && from <= off
    requires forall q :: from <= q < off ==> !IsHeader(img, q)
    ensures var rest := ParseFrom(img, off + |Bytes(s)|);
            ParseFrom(img, from) == Parse([off] + rest.sections, rest.truncated)
  {
    FieldsAreRead(img, off, s);
    hide IsHeader, Bytes, Holds, ParseFrom;
    ParseSkips(img, from, off);
    ParseStep(img, off);
  }

  /** The first section whose index and name are asked for is found where it was written. */
  method FindWritten(img: seq<byte>, off: nat, s: Section, name: seq<byte>) returns (found: int)
    requires IsProper(s) && Holds(img, off, s) && IsCutAtNul(s.name, name)
    requires forall q :: 0 <= q < off ==> !IsHeader(img, q)
    ensures found == off
  {
    var want := Want(s.index, Some(name));
    FieldsAreRead(img, off, s);
    ParsedFirst(img, 0, off, s);
    WhoWantsIt(img, off, s, want);
    ParseGivesSections(img, 0);
    AreAllHeaders(img, 0, ParseFrom(img, 0).sections);
    FirstAnswers(img, want, ParseFrom(img, 0).sections);
    hide IsHeader, ParseFrom, Bytes, Holds, IsAnswer, IsCandidate, AreSections;
    found := FindSection(img, 0, want);
  }

  lemma FirstAnswers(img: seq<byte>, want: Want, sections: seq<nat>)
    requires AllHeaders(img, sections) && sections != [] && IsCandidate(img, want, sections[0])
    requires want.index != INDEX_LAST
    ensures HasCandidate(img, want, sections)
    ensures forall k :: 0 <= k < |sections| && IsAnswer(img, want, sections, k) ==> k == 0
  {
    hide IsHeader, NameMatches, Index;
    assert Matches(img, want, sections[0]);
  }

  // ---- Two revisions of a section ----

  /** Nothing from `off` on looks like a header. */
  predicate NoMore(img: seq<byte>, off: nat) {
    forall q :: off <= q < |img| ==> !IsHeader(img, q)
  }

  lemma {:induction false} NothingParsed(img: seq<byte>, off: nat)
    requires NoMore(img, off)
    ensures ParseFrom(img, off) == Parse([], false)
    decreases |img| - off
  {
    if off + HEADER_SIZE > |img| {
    } else {
      assert !IsHeader(img, off);
      hide IsHeader;
      ParseStep(img, off);
      NothingParsed(img, off + 1);
    }
  }

  /** Of two sections of one name, index 256 finds the one with the greater index, and the first of equal ones. */
  method FindLastOfTwo(img: seq<byte>, off: nat, a: Section, b: Section, name: seq<byte>) returns (found: int)
    requires IsProper(a) && Holds(img, off, a) && IsCutAtNul(a.name, name)
    requires IsProper(b) && Holds(img, off + |Bytes(a)|, b) && IsCutAtNul(b.name, name)
    requires (forall q :: 0 <= q < off ==> !IsHeader(img, q)) && NoMore(img, off + |Bytes(a)| + |Bytes(b)|)
    ensures found == if a.index < b.index then off + |Bytes(a)| else off
  {
    var want := Want(256, Some(name));
    var next := off + |Bytes(a)|;
    hide IsHeader, ParseFrom, Bytes, Holds, IsAnswer, IsCandidate, Index, NoMore, AreSections, HasCandidate;
    FieldsAreRead(img, off, a);
    FieldsAreRead(img, next, b);
    TwoParsed(img, off, a, b);
    WhoWantsIt(img, off, a, want);
    WhoWantsIt(img, next, b, want);
    LastOfTwo(img, want, off, next);
    found := FindSection(img, 0, want);
  }

  lemma TwoParsed(img: seq<byte>, off: nat, a: Section, b: Section)
    requires IsProper(a) && Holds(img, off, a) && IsProper(b) && Holds(img, off + |Bytes(a)|, b)
    requires (forall q :: 0 <= q < off ==> !IsHeader(img, q)) && NoMore(img, off + |Bytes(a)| + |Bytes(b)|)
    ensures ParseFrom(img, 0) == Parse([off, off + |Bytes(a)|], false)
  {
    hide IsHeader, ParseFrom, Bytes, Holds, NoMore;
    var next := off + |Bytes(a)|;
    ParsedFirst(img, 0, off, a);
    ParsedFirst(img, next, next, b);
    NothingParsed(img, next + |Bytes(b)|);
    assert [off] + ([next] + []) == [off, next];
  }

  lemma LastOfTwo(img: seq<byte>, want: Want, a: nat, b: nat)
    requires IsHeader(img, a) && IsHeader(img, b) && want.index == 256
    requires IsCandidate(img, want, a) && IsCandidate(img, want, b)
    ensures HasCandidate(img, want, [a, b])
    ensures forall k :: 0 <= k < 2 && IsAnswer(img, want, [a, b], k) ==>
              k == if Index(img, a) < Index(img, b) then 1 else 0
  {
    hide IsHeader, Index;
    assert [a, b][0] == a && [a, b][1] == b;
  }

  // ---- Reporting ----

  /** A written section is reported intact where its sums are those of its header and its payload. */
  lemma SumsAreReported(img: seq<byte>, off: nat, s: Section)
    requires IsProper(s) && Holds(img, off, s) && IsHeader(img, off) && End(img, off) <= |img|
    ensures DumpImage.Describe(img, off)
         == DumpImage.Report(off, Checksum(Crc32.POLY, 0, SummedHeader(s)) == s.headerSum,
                             Checksum(Crc32.POLY, 0, s.payload) == s.dataSum)
  {
    hide Bytes, Le32, FromLe, Checksum, SummedHeader, IsHeader, Holds;
    Layout(s);
    FieldsAreRead(img, off, s);
    HeldSlice(img, off, s, 0, 36);
    HeldSlice(img, off, s, 36, |Bytes(s)|);
    var sum := Le32(s.headerSum);
    FromLe32(s.headerSum);
    Crc32.StoredChecksum(0, SummedHeader(s), sum);
    var b := Bytes(s);
    assert b[0..36] == b[..32] + b[32..36];
    assert b[36..|b|] == b[36..];
  }
}
