/** The visiting loop of calvaria.c: searching again behind every section that was found. */
module DumpImage {
  import opened Words
  import opened Crc
  import Crc32
  import opened SectionScan

  /** What is reported about one section. */
  datatype Report = Report(offset: nat, headerOk: bool, dataOk: bool)

  /** Both checksums run from zero; the header's covers all of the header but itself. */
  function Describe(img: seq<byte>, off: nat): Report
    requires IsHeader(img, off) && End(img, off) <= |img|
  {
    Report(off,
           Checksum(Crc32.POLY, 0, img[off..off + HEADER_SIZE]) == 0,
           Checksum(Crc32.POLY, 0, img[off + HEADER_SIZE..End(img, off)]) == FromLe(img[off + 28..off + 32]))
  }

  method DumpSection(img: seq<byte>, off: nat) returns (report: Report)
    requires IsHeader(img, off) && End(img, off) <= |img|
    ensures report == Describe(img, off)
  {
    var covered, stored := img[off..off + HEADER_SIZE - 4], img[off + 32..off + 36];
    var hdrsum := Crc32.Compute(0, covered);
    var datasum := Crc32.Compute(0, img[off + HEADER_SIZE..End(img, off)]);
    Crc32.StoredChecksum(0, covered, stored);
    assert covered + stored == img[off..off + HEADER_SIZE];
    report := Report(off, hdrsum == FromLe(stored), datasum == FromLe(img[off + 28..off + 32]));
  }

  /**
    Is section `i` one that the repeated search stops at?  Every match; for INDEX_LAST
    every section with the name whose index is at least that of all later ones.
   */
  predicate Selected(img: seq<byte>, want: Want, sections: seq<nat>, i: nat)
    requires AllHeaders(img, sections) && i < |sections|
  {
    if want.index == INDEX_LAST then
      && NameMatches(img, want, sections[i])
      && (forall j :: i < j < |sections| && NameMatches(img, want, sections[j]) ==>
            Index(img, sections[j]) <= Index(img, sections[i]))
    else
      Matches(img, want, sections[i])
  }

  /** The selected sections, in the order of the image. */
  function Visits(img: seq<byte>, want: Want, sections: seq<nat>): seq<nat>
    requires AllHeaders(img, sections)
  {
    if sections == [] then []
    else
      var rest := Visits(img, want, sections[1..]);
      if Selected(img, want, sections, 0) then [sections[0]] + rest else rest
  }

  /** All sections of the image that can be visited: none with INDEX_LAST if one is cut short. */
  function Visitable(img: seq<byte>, want: Want, off: nat): (sections: seq<nat>)
    ensures AreSections(img, off, sections)
  {
    ParseGivesSections(img, off);
    var p := ParseFrom(img, off);
    if want.index == INDEX_LAST && p.truncated then [] else p.sections
  }

  // ---- What the visited sections are ----

  lemma SelectedInTail(img: seq<byte>, want: Want, sections: seq<nat>, i: nat)
    requires AllHeaders(img, sections) && 0 < i < |sections|
    ensures Selected(img, want, sections, i) <==> Selected(img, want, sections[1..], i - 1)
  {
    hide IsHeader, NameMatches, Matches, Index;
    var tail := sections[1..];
    assert forall j :: i - 1 < j < |tail| ==> tail[j] == sections[j + 1];
    if Selected(img, want, tail, i - 1) {
      forall j | i < j < |sections| && want.index == INDEX_LAST && NameMatches(img, want, sections[j])
        ensures Index(img, sections[j]) <= Index(img, sections[i])
      {
        assert tail[j - 1] == sections[j];
      }
    }
  }

  lemma TailAreSections(img: seq<byte>, sections: seq<nat>, start: nat)
    requires AreSections(img, start, sections) && sections != []
    ensures AllHeaders(img, sections) && AreSections(img, End(img, sections[0]), sections[1..])
  {
  }

  lemma VisitsStep(img: seq<byte>, want: Want, sections: seq<nat>)
    requires AllHeaders(img, sections) && sections != []
    ensures AllHeaders(img, sections[1..])
    ensures Visits(img, want, sections)
         == (if Selected(img, want, sections, 0) then [sections[0]] else []) + Visits(img, want, sections[1..])
  {
    hide Selected, IsHeader;
  }

  /** Some selected section is at `off`. */
  predicate IsSelected(img: seq<byte>, want: Want, sections: seq<nat>, off: nat)
    requires AllHeaders(img, sections)
  {
    exists i :: 0 <= i < |sections| && sections[i] == off && Selected(img, want, sections, i)
  }

  lemma SelectedSplit(img: seq<byte>, want: Want, sections: seq<nat>, off: nat)
    requires AllHeaders(img, sections) && sections != [] && AllHeaders(img, sections[1..])
    ensures IsSelected(img, want, sections, off)
       <==> (sections[0] == off && Selected(img, want, sections, 0)) || IsSelected(img, want, sections[1..], off)
  {
    hide Selected, IsHeader;
    var tail := sections[1..];
    if i :| 0 <= i < |sections| && sections[i] == off && Selected(img, want, sections, i) {
      if i > 0 {
        SelectedInTail(img, want, sections, i);
        assert tail[i - 1] == off;
      }
    }
    if i :| 0 <= i < |tail| && tail[i] == off && Selected(img, want, tail, i) {
      SelectedInTail(img, want, sections, i + 1);
      assert sections[i + 1] == off;
    }
  }

  lemma {:induction false} VisitedAreSelected(img: seq<byte>, want: Want, sections: seq<nat>, start: nat, off: nat)
    requires AreSections(img, start, sections)
    ensures off in Visits(img, want, sections) <==> IsSelected(img, want, sections, off)
    decreases sections
  {
    if sections == [] {
    } else {
      hide AreSections, Selected, Visits, IsHeader, IsSelected;
      TailAreSections(img, sections, start);
      VisitsStep(img, want, sections);
      SelectedSplit(img, want, sections, off);
      VisitedAreSelected(img, want, sections[1..], End(img, sections[0]), off);
    }
  }

  predicate IncreasesFrom(start: nat, v: seq<nat>) {
    && (forall i :: 0 <= i < |v| ==> start <= v[i])
    && (forall i, j :: 0 <= i < j < |v| ==> v[i] < v[j])
  }

  lemma {:induction false} VisitsIncrease(img: seq<byte>, want: Want, sections: seq<nat>, start: nat)
    requires AreSections(img, start, sections)
    ensures IncreasesFrom(start, Visits(img, want, sections))
    decreases sections
  {
    if sections == [] {
    } else {
      var next, tail := End(img, sections[0]), sections[1..];
      assert AreSections(img, next, tail);
      VisitsIncrease(img, want, tail, next);
      var rest := Visits(img, want, tail);
      assert IncreasesFrom(next, rest);
      assert IncreasesFrom(start, [sections[0]] + rest);
    }
  }

  // ---- The loop ----

  lemma {:induction false} NothingLeft(img: seq<byte>, want: Want, sections: seq<nat>)
    requires AllHeaders(img, sections)
    requires forall k :: 0 <= k < |sections| ==> !IsCandidate(img, want, sections[k])
    ensures Visits(img, want, sections) == []
    decreases sections
  {
    if sections == [] {
    } else {
      assert !IsCandidate(img, want, sections[0]);
      NothingLeft(img, want, sections[1..]);
    }
  }

  /** The answer of a search is the first section to be visited. */
  lemma {:induction false} AnswerIsNext(img: seq<byte>, want: Want, sections: seq<nat>, k: nat)
    requires AllHeaders(img, sections) && k < |sections| && IsAnswer(img, want, sections, k)
    ensures Visits(img, want, sections) == [sections[k]] + Visits(img, want, sections[k + 1..])
    decreases k
  {
    hide IsHeader, NameMatches, Matches, Index;
    if k == 0 {
    } else {
      var tail := sections[1..];
      assert forall j :: 0 <= j < |tail| ==> tail[j] == sections[j + 1];
      assert tail[k..] == sections[k + 1..];
      AnswerInTail(img, want, sections, k);
      AnswerIsNext(img, want, tail, k - 1);
    }
  }

  lemma AnswerInTail(img: seq<byte>, want: Want, sections: seq<nat>, k: nat)
    requires AllHeaders(img, sections) && 0 < k < |sections| && IsAnswer(img, want, sections, k)
    ensures IsAnswer(img, want, sections[1..], k - 1) && !Selected(img, want, sections, 0)
  {
    hide IsHeader, NameMatches, Matches, Index;
    var tail := sections[1..];
    assert forall j :: 0 <= j < |tail| ==> tail[j] == sections[j + 1];
    if want.index == INDEX_LAST && NameMatches(img, want, sections[0]) {
      assert Index(img, sections[0]) < Index(img, sections[k]);
    }
    if want.index != INDEX_LAST { assert !Matches(img, want, sections[0]); }
  }

  /**
    The sections reported are exactly the selected ones, once each and in the order of
    the image.
   */
  method Dump(img: seq<byte>, want: Want) returns (reports: seq<Report>)
    ensures var visits := Visits(img, want, Visitable(img, want, 0));
            && |reports| == |visits|
            && forall i :: 0 <= i < |visits| ==>
                 && IsHeader(img, visits[i]) && End(img, visits[i]) <= |img|
                 && reports[i] == Describe(img, visits[i])
  {
    hide Visits, Visitable, Describe, IsAnswer, IsHeader;
    ghost var all := Visits(img, want, Visitable(img, want, 0));
    ghost var done: seq<nat> := [];
    reports := [];
    var offset := 0;
    while true
      invariant offset <= |img|
      invariant all == done + Visits(img, want, Visitable(img, want, offset))
      invariant |reports| == |done|
      invariant forall i :: 0 <= i < |done| ==>
                  IsHeader(img, done[i]) && End(img, done[i]) <= |img| && reports[i] == Describe(img, done[i])
      decreases |img| - offset
    {
      var found := FindSection(img, offset, want);
      if found < 0 {
        SearchFailed(img, want, offset);
        break;
      }
      ghost var k := SearchSucceeded(img, want, offset, offset + found);
      offset := offset + found;
      var report := DumpSection(img, offset);
      reports := reports + [report];
      done := done + [offset];
      offset := End(img, offset);
    }
    assert done == all;
  }

  lemma SearchFailed(img: seq<byte>, want: Want, offset: nat)
    requires var p := ParseFrom(img, offset);
             && AllHeaders(img, p.sections)
             && (!(want.index == INDEX_LAST && p.truncated) ==>
                   forall k :: 0 <= k < |p.sections| ==> !IsCandidate(img, want, p.sections[k]))
    ensures Visits(img, want, Visitable(img, want, offset)) == []
  {
    NothingLeft(img, want, Visitable(img, want, offset));
  }

  lemma SearchSucceeded(img: seq<byte>, want: Want, offset: nat, hdr: nat) returns (k: nat)
    requires var p := ParseFrom(img, offset);
             && AllHeaders(img, p.sections)
             && (want.index == INDEX_LAST ==> !p.truncated)
             && exists k :: 0 <= k < |p.sections| && p.sections[k] == hdr && IsAnswer(img, want, p.sections, k)
    ensures IsHeader(img, hdr) && hdr >= offset && End(img, hdr) <= |img|
    ensures Visits(img, want, Visitable(img, want, offset))
         == [hdr] + Visits(img, want, Visitable(img, want, End(img, hdr)))
  {
    hide IsAnswer, Visits, IsHeader, ParseFrom;
    var p := ParseFrom(img, offset);
    k :| 0 <= k < |p.sections| && p.sections[k] == hdr && IsAnswer(img, want, p.sections, k);
    ParseGivesSections(img, offset);
    ParseResumes(img, offset, k);
    AnswerIsNext(img, want, p.sections, k);
  }
}
