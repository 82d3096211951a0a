/**
  The section scanner of calvaria.c.  An image is a byte sequence in which tagged
  sections (a 36-byte header that gives the payload length, then the payload) are
  found by searching for the next header after the end of the previous section.
 */
module SectionScan {
  import opened Words
  import opened Wrappers
  import opened Crc
  import Crc32

  const HEADER_SIZE := 36
  const MAGIC: seq<byte> := [0x43, 0x6F, 0x6E, 0x46]  // "ConF"

  /** The index that asks for the last revision of a section. */
  const INDEX_LAST := 256

  /** A negative index matches every section, and so does a missing name. */
  datatype Want = Want(index: int, name: Option<seq<byte>>)

  predicate IsHeader(img: seq<byte>, off: nat) {
    off + HEADER_SIZE <= |img| && img[off..off + 4] == MAGIC
  }

  function Index(img: seq<byte>, off: nat): byte
    requires IsHeader(img, off)
  {
    img[off + 5]
  }

  function CString(bytes: seq<byte>): seq<byte> {
    if bytes == [] || bytes[0] == 0 then [] else [bytes[0]] + CString(bytes[1..])
  }

  function Name(img: seq<byte>, off: nat): seq<byte>
    requires IsHeader(img, off)
  {
    CString(img[off + 8..off + 24])
  }

  function PayloadLength(img: seq<byte>, off: nat): nat
    requires IsHeader(img, off)
  {
    FromLe(img[off + 24..off + 28])
  }

  function End(img: seq<byte>, off: nat): (end: nat)
    requires IsHeader(img, off)
    ensures end >= off + HEADER_SIZE
  {
    off + HEADER_SIZE + PayloadLength(img, off)
  }

  // ---- The single-pass parse ----

  /** The sections met before the end of the image, or before one that is cut short. */
  datatype Parse = Parse(sections: seq<nat>, truncated: bool)

  function ParseFrom(img: seq<byte>, off: nat): Parse
    decreases |img| - off
  {
    if off + HEADER_SIZE > |img| then Parse([], false)
    else if !IsHeader(img, off) then ParseFrom(img, off + 1)
    else if End(img, off) > |img| then Parse([], true)
    else
      var rest := ParseFrom(img, End(img, off));
      rest.(sections := [off] + rest.sections)
  }

  predicate AreSections(img: seq<byte>, start: nat, sections: seq<nat>) {
    && (forall k :: 0 <= k < |sections| ==>
          start <= sections[k] && IsHeader(img, sections[k]) && End(img, sections[k]) <= |img|)
    && (forall j, k :: 0 <= j < k < |sections| ==> End(img, sections[j]) <= sections[k])
  }

  /** Headers lie whole inside the image with their payloads, in order and without overlap. */
  lemma {:induction false} ParseGivesSections(img: seq<byte>, start: nat)
    ensures AreSections(img, start, ParseFrom(img, start).sections)
    decreases |img| - start
  {
    if start + HEADER_SIZE > |img| {
    } else {
      if !IsHeader(img, start) {
        ParseGivesSections(img, start + 1);
      } else if End(img, start) <= |img| {
        ParseGivesSections(img, End(img, start));
      }
    }
  }

  predicate Within(img: seq<byte>, sections: seq<nat>, q: nat)
    requires forall k :: 0 <= k < |sections| ==> IsHeader(img, sections[k])
  {
    exists k :: 0 <= k < |sections| && sections[k] <= q < End(img, sections[k])
  }

  /** Every header from `start` on begins a section or lies inside one. */
  ghost predicate Covers(img: seq<byte>, start: nat, sections: seq<nat>)
    requires AreSections(img, start, sections)
  {
    forall q {:trigger Within(img, sections, q)} :: start <= q && IsHeader(img, q) ==> Within(img, sections, q)
  }

  /**
    The parse is the only list of sections, in order and without overlap, that accounts
    for every header; there is none if a section is cut short.
   */
  lemma {:induction false} ParseIsUnique(img: seq<byte>, start: nat, sections: seq<nat>)
    ensures AreSections(img, start, sections) && Covers(img, start, sections)
       <==> ParseFrom(img, start) == Parse(sections, false)
    decreases |img| - start
  {
    if start + HEADER_SIZE > |img| {
      assert sections != [] ==> !(start <= sections[0] && IsHeader(img, sections[0]));
    } else if !IsHeader(img, start) {
      ParseIsUnique(img, start + 1, sections);
      if AreSections(img, start, sections) {
        assert forall k :: 0 <= k < |sections| ==> sections[k] != start;
      }
    } else {
      UniqueAtHeader(img, start, sections);
    }
  }

  lemma {:induction false} UniqueAtHeader(img: seq<byte>, start: nat, sections: seq<nat>)
    requires IsHeader(img, start)
    ensures AreSections(img, start, sections) && Covers(img, start, sections)
       <==> ParseFrom(img, start) == Parse(sections, false)
    decreases |img| - start, 0
  {
    if AreSections(img, start, sections) && Covers(img, start, sections) {
      FirstIsStart(img, start, sections);
      TailCovers(img, start, sections);
      ParseIsUnique(img, End(img, start), sections[1..]);
    }
    if ParseFrom(img, start) == Parse(sections, false) {
      ParseIsUnique(img, End(img, start), sections[1..]);
      ConsCovers(img, start, sections);
    }
  }

  lemma TailCovers(img: seq<byte>, start: nat, sections: seq<nat>)
    requires IsHeader(img, start) && AreSections(img, start, sections) && Covers(img, start, sections)
    requires sections != [] && sections[0] == start
    ensures AreSections(img, End(img, start), sections[1..]) && Covers(img, End(img, start), sections[1..])
  {
    hide IsHeader, End;
    var next, tail := End(img, start), sections[1..];
    forall q | next <= q && IsHeader(img, q) ensures Within(img, tail, q) {
      assert Within(img, sections, q);
      var k :| 0 <= k < |sections| && sections[k] <= q < End(img, sections[k]);
      assert tail[k - 1] == sections[k];
    }
  }

  lemma ConsAreSections(img: seq<byte>, start: nat, sections: seq<nat>)
    requires IsHeader(img, start) && End(img, start) <= |img|
    requires sections != [] && sections[0] == start
    requires AreSections(img, End(img, start), sections[1..])
    ensures AreSections(img, start, sections)
  {
    hide IsHeader, End;
    assert sections == [start] + sections[1..];
  }

  lemma ConsCovers(img: seq<byte>, start: nat, sections: seq<nat>)
    requires IsHeader(img, start) && End(img, start) <= |img|
    requires sections != [] && sections[0] == start
    requires AreSections(img, End(img, start), sections[1..]) && Covers(img, End(img, start), sections[1..])
    ensures AreSections(img, start, sections) && Covers(img, start, sections)
  {
    hide IsHeader, End;
    var next, tail := End(img, start), sections[1..];
    assert sections == [start] + tail;
    ConsAreSections(img, start, sections);
    hide AreSections;
    AreAllHeaders(img, next, tail);
    AreAllHeaders(img, start, sections);
    forall q | start <= q && IsHeader(img, q) ensures Within(img, sections, q) {
      if q < next {
        assert sections[0] <= q < End(img, sections[0]);
      } else {
        assert Within(img, tail, q);
        var k :| 0 <= k < |tail| && tail[k] <= q < End(img, tail[k]);
        assert sections[k + 1] == tail[k];
      }
    }
  }

  lemma FirstIsStart(img: seq<byte>, start: nat, sections: seq<nat>)
    requires IsHeader(img, start) && AreSections(img, start, sections) && Covers(img, start, sections)
    ensures sections != [] && sections[0] == start
  {
    hide IsHeader, End;
    assert Within(img, sections, start);
    var k :| 0 <= k < |sections| && sections[k] <= start < End(img, sections[k]);
    assert sections[0] <= sections[k];
  }

  /** The parse can be resumed behind any of its sections. */
  lemma {:induction false} ParseResumes(img: seq<byte>, start: nat, k: nat)
    requires k < |ParseFrom(img, start).sections|
    ensures var p := ParseFrom(img, start);
            && IsHeader(img, p.sections[k])
            && ParseFrom(img, End(img, p.sections[k])) == Parse(p.sections[k + 1..], p.truncated)
    decreases |img| - start
  {
    var p := ParseFrom(img, start);
    if !IsHeader(img, start) {
      ParseResumes(img, start + 1, k);
    } else if k > 0 {
      ParseResumes(img, End(img, start), k - 1);
      assert p.sections[1..][k..] == p.sections[k + 1..];
    }
  }

  // ---- Searching ----

  predicate NameMatches(img: seq<byte>, want: Want, off: nat)
    requires IsHeader(img, off)
  {
    want.name.None? || Name(img, off) == want.name.value
  }

  predicate Matches(img: seq<byte>, want: Want, off: nat)
    requires IsHeader(img, off)
  {
    (want.index < 0 || want.index == Index(img, off)) && NameMatches(img, want, off)
  }

  /** `sections[k]` is the answer to a search among `sections`. */
  predicate IsAnswer(img: seq<byte>, want: Want, sections: seq<nat>, k: nat)
    requires forall i :: 0 <= i < |sections| ==> IsHeader(img, sections[i])
    requires k < |sections|
  {
    if want.index == INDEX_LAST then
      && NameMatches(img, want, sections[k])
      && (forall j :: 0 <= j < k && NameMatches(img, want, sections[j]) ==>
            Index(img, sections[j]) < Index(img, sections[k]))
      && (forall j :: k < j < |sections| && NameMatches(img, want, sections[j]) ==>
            Index(img, sections[j]) <= Index(img, sections[k]))
    else
      && Matches(img, want, sections[k])
      && (forall j :: 0 <= j < k ==> !Matches(img, want, sections[j]))
  }

  predicate IsCandidate(img: seq<byte>, want: Want, off: nat)
    requires IsHeader(img, off)
  {
    if want.index == INDEX_LAST then NameMatches(img, want, off) else Matches(img, want, off)
  }

  predicate AllHeaders(img: seq<byte>, sections: seq<nat>) {
    forall i :: 0 <= i < |sections| ==> IsHeader(img, sections[i])
  }

  predicate HasCandidate(img: seq<byte>, want: Want, sections: seq<nat>)
    requires AllHeaders(img, sections)
  {
    exists k :: 0 <= k < |sections| && IsCandidate(img, want, sections[k])
  }

  lemma AnswerIsCandidate(img: seq<byte>, want: Want, sections: seq<nat>, k: nat)
    requires AllHeaders(img, sections) && k < |sections| && IsAnswer(img, want, sections, k)
    ensures HasCandidate(img, want, sections)
  {
    hide NameMatches, Index;
    assert IsCandidate(img, want, sections[k]);
  }

  /** What the loop of the search knows about the sections it has passed. */
  predicate Searched(img: seq<byte>, want: Want, seen: seq<nat>, best: int, previousIndex: int)
    requires AllHeaders(img, seen)
  {
    if best == -1 then
      && previousIndex == -1
      && (forall k :: 0 <= k < |seen| ==> !IsCandidate(img, want, seen[k]))
    else
      && want.index == INDEX_LAST
      && 0 <= best < |seen|
      && previousIndex == Index(img, seen[best])
      && IsAnswer(img, want, seen, best)
  }

  /** The test that makes the loop pass over a section. */
  predicate Skips(img: seq<byte>, want: Want, hdr: nat, previousIndex: int)
    requires IsHeader(img, hdr)
  {
    || (if want.index == INDEX_LAST then Index(img, hdr) <= previousIndex
        else want.index >= 0 && want.index != Index(img, hdr))
    || !NameMatches(img, want, hdr)
  }

  lemma PassOver(img: seq<byte>, want: Want, seen: seq<nat>, best: int, previousIndex: int, hdr: nat)
    requires AllHeaders(img, seen) && IsHeader(img, hdr)
    requires Searched(img, want, seen, best, previousIndex) && Skips(img, want, hdr, previousIndex)
    ensures AllHeaders(img, seen + [hdr]) && Searched(img, want, seen + [hdr], best, previousIndex)
  {
    hide IsHeader, NameMatches, Index;
  }

  lemma TakeLast(img: seq<byte>, want: Want, seen: seq<nat>, best: int, previousIndex: int, hdr: nat)
    requires AllHeaders(img, seen) && IsHeader(img, hdr) && want.index == INDEX_LAST
    requires Searched(img, want, seen, best, previousIndex) && !Skips(img, want, hdr, previousIndex)
    ensures AllHeaders(img, seen + [hdr]) && Searched(img, want, seen + [hdr], |seen|, Index(img, hdr))
  {
    hide IsHeader, NameMatches, Index;
    var now := seen + [hdr];
    forall j | 0 <= j < |seen| && NameMatches(img, want, now[j])
      ensures Index(img, now[j]) < Index(img, hdr)
    {
      assert now[j] == seen[j];
      if best != -1 && j != best { assert Index(img, seen[j]) <= Index(img, seen[best]); }
    }
  }

  lemma TakeFirst(img: seq<byte>, want: Want, seen: seq<nat>, sections: seq<nat>)
    requires AllHeaders(img, sections) && seen < sections && want.index != INDEX_LAST
    requires Searched(img, want, seen, -1, -1) && !Skips(img, want, sections[|seen|], -1)
    ensures IsAnswer(img, want, sections, |seen|)
  {
    hide IsHeader, NameMatches, Index;
    assert forall j :: 0 <= j < |seen| ==> sections[j] == seen[j];
  }

  /** The section at `off` is the `n`-th of the parse, and the rest follows behind it. */
  lemma NextSection(img: seq<byte>, off: nat, p: Parse, n: nat)
    requires n <= |p.sections| && ParseFrom(img, off) == Parse(p.sections[n..], p.truncated)
    requires IsHeader(img, off) && End(img, off) <= |img|
    ensures n < |p.sections| && p.sections[n] == off && p.sections[..n] + [off] == p.sections[..n + 1]
    ensures ParseFrom(img, End(img, off)) == Parse(p.sections[n + 1..], p.truncated)
  {
    hide ParseFrom, IsHeader;
    ParseStep(img, off);
    var rest := p.sections[n..];
    assert rest[0] == p.sections[n] && rest[1..] == p.sections[n + 1..];
  }

  /**
    The search from `start`.  The first match; for INDEX_LAST the first section of
    greatest index among those with the name, and none at all if a later section is
    cut short.
   */
  method FindSection(img: seq<byte>, start: nat, want: Want) returns (found: int)
    requires start <= |img|
    ensures var p := ParseFrom(img, start);
            && AreSections(img, start, p.sections)
            && found >= -1
            && (found >= 0 ==>
                  exists k ::
                    0 <= k < |p.sections| && p.sections[k] == start + found && IsAnswer(img, want, p.sections, k))
            && (found >= 0 <==> HasCandidate(img, want, p.sections) && !(want.index == INDEX_LAST && p.truncated))
  {
    hide AreSections, IsAnswer, Index, NameMatches, PayloadLength, Searched, ParseFrom, Skips,
      IsCandidate, IsHeader;
    ghost var p := ParseFrom(img, start);
    ghost var seen: seq<nat> := [];
    ghost var best: int := -1;
    ParseGivesSections(img, start);
    AreAllHeaders(img, start, p.sections);
    NothingSearched(img, want);
    var offset, count := 0, |img| - start;
    var previousIndex: int := -1;
    found := -1;
    while true
      invariant 0 <= offset && 0 <= count && start + offset + count == |img|
      invariant |seen| <= |p.sections| && seen == p.sections[..|seen|]
      invariant ParseFrom(img, start + offset) == Parse(p.sections[|seen|..], p.truncated)
      invariant AllHeaders(img, seen) && Searched(img, want, seen, best, previousIndex)
      invariant found == -1 <==> best == -1
      invariant best != -1 ==> want.index == INDEX_LAST && 0 <= best < |seen|
      invariant best != -1 ==> found >= 0 && seen[best] == start + found
      invariant best == -1 ==> previousIndex == -1
      decreases count
    {
      ParseStep(img, start + offset);
      if count < HEADER_SIZE {
        break;
      }
      if !IsHeader(img, start + offset) {
        count, offset := count - 1, offset + 1;
        continue;
      }
      var hdr := start + offset;
      var payloadLength := PayloadLength(img, hdr);
      if count - HEADER_SIZE < payloadLength {
        if want.index != INDEX_LAST { Exhausted(img, want, seen, best, previousIndex); }
        return -1;
      }
      ghost var n := |seen|;
      NextSection(img, hdr, p, n);
      if !Skips(img, want, hdr, previousIndex) {
        found := offset;
        if want.index == INDEX_LAST {
          TakeLast(img, want, seen, best, previousIndex, hdr);
          best := n;
          previousIndex := Index(img, hdr);
        } else {
          TakeFirst(img, want, seen, p.sections);
          AnswerIsCandidate(img, want, p.sections, n);
          return;
        }
      } else {
        PassOver(img, want, seen, best, previousIndex, hdr);
      }
      seen := seen + [hdr];
      count := count - (HEADER_SIZE + payloadLength);
      offset := offset + (HEADER_SIZE + payloadLength);
    }
    assert seen == p.sections;
    Exhausted(img, want, seen, best, previousIndex);
    if best != -1 { AnswerIsCandidate(img, want, p.sections, best); }
  }

  // ---- A match that the last-index search does not report ----

  /** A whole section without payload, and a header that announces one byte more than there is. */
  function CutImage(): seq<byte> {
    MAGIC + seq(32, _ => 0) + MAGIC + seq(20, _ => 0) + [1] + seq(11, _ => 0)
  }

  lemma LengthBytes(bytes: seq<byte>, n: byte)
    requires bytes == [n, 0, 0, 0]
    ensures FromLe(bytes) == n
  {
    var one, two, three: seq<byte> := [0], [0, 0], [0, 0, 0];
    assert one[1..] == [] && two[1..] == one && three[1..] == two && bytes[1..] == three;
    assert FromLe(one) == FromLe(two) == FromLe(three) == 0;
  }

  /**
    The section before the cut one is whole and matches; the search for the last index
    returns -1 all the same.
   */
  lemma CutSectionHidesMatch()
    ensures var want := Want(INDEX_LAST, None);
            var p := ParseFrom(CutImage(), 0);
            p == Parse([0], true) && IsHeader(CutImage(), 0) && HasCandidate(CutImage(), want, p.sections)
  {
    var img := CutImage();
    assert img[0..4] == MAGIC && img[36..40] == MAGIC;
    assert img[24..28] == [0, 0, 0, 0] && img[60..64] == [1, 0, 0, 0];
    LengthBytes(img[24..28], 0);
    LengthBytes(img[60..64], 1);
    assert End(img, 0) == 36 && End(img, 36) == 73 && |img| == 72;
    hide CutImage, FromLe, PayloadLength;
    ParseStep(img, 36);
    ParseStep(img, 0);
    assert IsCandidate(img, Want(INDEX_LAST, None), [0][0]);
  }

  lemma AreAllHeaders(img: seq<byte>, start: nat, sections: seq<nat>)
    requires AreSections(img, start, sections)
    ensures AllHeaders(img, sections)
  {
  }

  lemma NothingSearched(img: seq<byte>, want: Want)
    ensures Searched(img, want, [], -1, -1)
  {
  }

  /** The parse, one step at a time. */
  lemma ParseStep(img: seq<byte>, off: nat)
    ensures off + HEADER_SIZE > |img| ==> ParseFrom(img, off) == Parse([], false)
    ensures off + HEADER_SIZE <= |img| && !IsHeader(img, off) ==> ParseFrom(img, off) == ParseFrom(img, off + 1)
    ensures IsHeader(img, off) && End(img, off) > |img| ==> ParseFrom(img, off) == Parse([], true)
    ensures IsHeader(img, off) && End(img, off) <= |img| ==>
              var rest := ParseFrom(img, End(img, off));
              ParseFrom(img, off) == Parse([off] + rest.sections, rest.truncated)
  {
  }

  lemma Exhausted(img: seq<byte>, want: Want, seen: seq<nat>, best: int, previousIndex: int)
    requires AllHeaders(img, seen) && Searched(img, want, seen, best, previousIndex)
    ensures best == -1 ==> forall k :: 0 <= k < |seen| ==> !IsCandidate(img, want, seen[k])
    ensures best != -1 ==> 0 <= best < |seen| && IsAnswer(img, want, seen, best)
  {
  }
}
