/**
  The lookup on package files as they are written: stanzas that begin with "Package: " and
  a name, and lines of a label, a colon, blanks and a value.
 */
module PkgText {
  import opened CLibrary
  import opened Wrappers
  import opened PkgDetails
  import opened PkgStanzas
  import opened PkgFields

  /** The value of a line: nothing, or text that does not begin with white space. */
  predicate IsValue(value: string) {
    value == "" || value[0] as int !in {0x20, 0x09, 0x0A, 0x0B, 0x0C, 0x0D}
  }

  predicate AreBlanks(s: string) {
    forall i :: 0 <= i < |s| ==> s[i] == ' ' || s[i] == '\t'
  }

  lemma {:induction false} BlanksSkipped(blanks: string, value: string)
    requires AreBlanks(blanks) && IsValue(value)
    ensures SkipSpace(blanks + value) == value
    decreases blanks
  {
    if blanks == "" {
      assert blanks + value == value;
      if value != "" { SpaceCodes(value[0]); }
    } else {
      assert (blanks + value)[1..] == blanks[1..] + value;
      BlanksSkipped(blanks[1..], value);
    }
  }

  /** What is copied from a line is its value, without the label, the colon and the blanks. */
  lemma {:induction false} ValueOfLine(tag: string, blanks: string, value: string)
    requires ':' !in tag && AreBlanks(blanks) && IsValue(value)
    ensures FieldValue(tag + ":" + blanks + value) == Some(value)
    ensures forall dst :: FieldCopy(dst, tag + ":" + blanks + value) == value
    decreases tag
  {
    var line := tag + ":" + blanks + value;
    if tag == "" {
      assert line[0] == ':' && line[1..] == blanks + value;
      BlanksSkipped(blanks, value);
    } else {
      assert line[1..] == tag[1..] + ":" + blanks + value;
      ValueOfLine(tag[1..], blanks, value);
    }
  }

  // ---- Names ----

  /** Stanza `k` begins with the package line for `names[k]`. */
  predicate AreNamed(zs: seq<Stanza>, names: seq<string>) {
    && |zs| == |names|
    && forall k :: 0 <= k < |zs| ==> zs[k].header == "Package: " + names[k] && IsValue(names[k])
  }

  lemma NamedHeader(z: Stanza, name: string)
    requires z.header == "Package: " + name && IsValue(name)
    ensures Name(z) == name && IsPackage(z.header)
  {
    ValueOfLine("Package", " ", name);
    assert z.header == "Package" + ":" + " " + name;
    forall i | 0 <= i < 8 ensures z.header[i] == "Package:"[i] {}
  }

  /** No line of a body is empty or a package line. */
  predicate IsBody(body: seq<string>) {
    forall i :: 0 <= i < |body| ==> body[i] != [] && !IsPackage(body[i])
  }

  /** `last` ends the first run of stanzas for `name`. */
  predicate EndsRun(names: seq<string>, name: string, first: nat, last: nat) {
    && first <= last < |names|
    && (forall k :: 0 <= k < first ==> names[k] != name)
    && (forall k :: first <= k <= last ==> names[k] == name)
    && (last + 1 < |names| ==> names[last + 1] != name)
  }

  lemma {:induction false} RunEndsThere(zs: seq<Stanza>, names: seq<string>, name: string, first: nat, last: nat,
                                        k: nat)
    requires AreNamed(zs, names) && EndsRun(names, name, first, last) && k <= |zs|
    ensures FirstRun(zs, name, k)
         == if k <= first then Unseen else if k <= last + 1 then Open(k - 1) else Closed(last)
    decreases k
  {
    if k == 0 {
    } else {
      RunEndsThere(zs, names, name, first, last, k - 1);
      NamedHeader(zs[k - 1], names[k - 1]);
      hide Name;
    }
  }

  lemma {:induction false} NeverSeen(zs: seq<Stanza>, names: seq<string>, name: string, k: nat)
    requires AreNamed(zs, names) && name !in names && k <= |zs|
    ensures FirstRun(zs, name, k) == Unseen
    decreases k
  {
    if k == 0 {
    } else {
      NeverSeen(zs, names, name, k - 1);
      NamedHeader(zs[k - 1], names[k - 1]);
      hide Name;
    }
  }

  lemma NamedAreWellFormed(zs: seq<Stanza>, names: seq<string>)
    requires AreNamed(zs, names) && forall k :: 0 <= k < |zs| ==> IsBody(zs[k].body)
    ensures forall k :: 0 <= k < |zs| ==> WellFormed(zs[k])
  {
    forall k | 0 <= k < |zs| ensures WellFormed(zs[k]) { NamedHeader(zs[k], names[k]); }
  }

  /**
    A name that some package line gives is answered by the last stanza of its first run,
    with that name at the front of the line.
   */
  lemma NameIsAnswered(cfg: Config, zs: seq<Stanza>, names: seq<string>, requests: seq<string>, junk: Details,
                       i: nat, first: nat, last: nat)
    requires UniqueMode(cfg) && Distinct(requests) && i < |requests|
    requires AreNamed(zs, names) && forall k :: 0 <= k < |zs| ==> IsBody(zs[k].body)
    requires EndsRun(names, requests[i], first, last)
    ensures LinesFor(Finish(cfg, Run(cfg, Start(requests, junk), File(zs))), i)
         == [Found(i, Report(cfg, requests[i], CurAfter(cfg, Start(requests, junk).cur, zs, last + 1)))]
  {
    hide Run, File, Finish, LinesFor, IsBody, Answer, Start;
    NamedAreWellFormed(zs, names);
    FirstRunIsAnswered(cfg, zs, requests, junk, i);
    RunAnswer(cfg, Start(requests, junk).cur, zs, names, requests[i], i, first, last);
  }

  lemma RunAnswer(cfg: Config, d: Details, zs: seq<Stanza>, names: seq<string>, name: string, i: nat,
                  first: nat, last: nat)
    requires AreNamed(zs, names) && EndsRun(names, name, first, last)
    ensures Answer(cfg, d, zs, name, i) == Found(i, Report(cfg, name, CurAfter(cfg, d, zs, last + 1)))
  {
    hide Report, CurAfter, Name;
    RunEndsThere(zs, names, name, first, last, |zs|);
    NamedHeader(zs[last], names[last]);
  }

  /** A name that no package line gives is reported as missing. */
  lemma NameIsMissing(cfg: Config, zs: seq<Stanza>, names: seq<string>, requests: seq<string>, junk: Details, i: nat)
    requires UniqueMode(cfg) && Distinct(requests) && i < |requests| && requests[i] !in names
    requires AreNamed(zs, names) && forall k :: 0 <= k < |zs| ==> IsBody(zs[k].body)
    ensures LinesFor(Finish(cfg, Run(cfg, Start(requests, junk), File(zs))), i) == [Missing(i, requests[i])]
  {
    hide Run, File, Finish, LinesFor, Report, CurAfter, IsBody;
    NamedAreWellFormed(zs, names);
    FirstRunIsAnswered(cfg, zs, requests, junk, i);
    NeverSeen(zs, names, requests[i], |zs|);
  }

  // ---- Fields ----

  predicate SameText(a: string, b: string) {
    |a| == |b| && forall i :: 0 <= i < |a| ==> SameLetter(a[i], b[i])
  }

  /** A line carries a label exactly when that is the text in front of its colon, in any case. */
  lemma LabelIs(tag: string, rest: string, want: string)
    requires ':' !in tag && ':' !in want
    ensures HasPrefix(tag + ":" + rest, want + ":") <==> SameText(tag, want)
  {
    var line, prefix := tag + ":" + rest, want + ":";
    PrefixLetters(line, prefix);
    hide HasPrefix;
    if |tag| == |want| {
      forall i | 0 <= i < |want| ensures line[i] == tag[i] && prefix[i] == want[i] {}
    } else if |want| < |tag| {
      assert line[|want|] == tag[|want|] && prefix[|want|] == ':';
    } else {
      assert line[|tag|] == ':' && prefix[|tag|] == want[|tag|];
      assert |prefix| <= |line| ==> !SameLetter(line[|tag|], prefix[|tag|]);
    }
  }

  /** The name of the checksum field is not that of another field. */
  predicate IsOwnLabel(tag: string) {
    && ':' !in tag
    && forall other :: other in {"Package", "Version", "Architecture", "Size", "Filename"} ==> !SameText(tag, other)
  }

  function Labelled(tag: string, value: string): string {
    tag + ": " + value
  }

  lemma LineLabels(cfg: Config, tag: string, value: string)
    requires ':' !in tag && ':' !in cfg.checksumField && IsValue(value)
    ensures var line := Labelled(tag, value);
            && line != [] && (IsPackage(line) <==> SameText(tag, "Package"))
            && (HasPrefix(line, "Version:") <==> SameText(tag, "Version"))
            && (HasPrefix(line, "Architecture:") <==> SameText(tag, "Architecture"))
            && (HasPrefix(line, "Size:") <==> SameText(tag, "Size"))
            && (HasPrefix(line, "Filename:") <==> SameText(tag, "Filename"))
            && (HasPrefix(line, cfg.checksumField + ":") <==> SameText(tag, cfg.checksumField))
            && forall dst :: FieldCopy(dst, line) == value
  {
    var line, rest := Labelled(tag, value), " " + value;
    assert line == tag + ":" + rest && line == tag + ":" + " " + value;
    hide SameText, HasPrefix, FieldCopy, Labelled;
    LabelIs(tag, rest, "Package");
    LabelIs(tag, rest, "Version");
    LabelIs(tag, rest, "Architecture");
    LabelIs(tag, rest, "Size");
    LabelIs(tag, rest, "Filename");
    LabelIs(tag, rest, cfg.checksumField);
    assert "Package" + ":" == "Package:" && "Version" + ":" == "Version:" && "Architecture" + ":" == "Architecture:";
    assert "Size" + ":" == "Size:" && "Filename" + ":" == "Filename:";
    ValueOfLine(tag, " ", value);
  }

  lemma LabelsDiffer(tag: string)
    ensures SameText(tag, tag)
    ensures tag in {"Version", "Architecture", "Size", "Filename"} ==>
              forall other :: other in {"Package", "Version", "Architecture", "Size", "Filename"} && other != tag ==>
                !SameText(tag, other)
  {
    assert !SameLetter("Filename"[0], "Version"[0]);
  }

  lemma SameTextSymmetric(a: string, b: string)
    ensures SameText(a, b) == SameText(b, a)
  {
  }

  /** The five fields of a stanza, in the order in which they are usually written. */
  function Body(cfg: Config, d: Details): seq<string> {
    [Labelled("Version", d.ver), Labelled("Architecture", d.arch), Labelled("Size", d.size),
     Labelled(cfg.checksumField, d.checksum), Labelled("Filename", d.filename)]
  }

  predicate AreValues(d: Details) {
    IsValue(d.ver) && IsValue(d.arch) && IsValue(d.size) && IsValue(d.checksum) && IsValue(d.filename)
  }

  lemma BodyIsBody(cfg: Config, d: Details)
    requires IsOwnLabel(cfg.checksumField) && AreValues(d)
    ensures IsBody(Body(cfg, d))
  {
    hide HasPrefix, FieldCopy, SameText, Labelled, IsPackage;
    LineLabels(cfg, "Version", d.ver);
    LabelsDiffer("Version");
    LineLabels(cfg, "Architecture", d.arch);
    LabelsDiffer("Architecture");
    LineLabels(cfg, "Size", d.size);
    LabelsDiffer("Size");
    LineLabels(cfg, cfg.checksumField, d.checksum);
    LineLabels(cfg, "Filename", d.filename);
    LabelsDiffer("Filename");
  }

  lemma NoteVersion(cfg: Config, d: Details, value: string)
    requires IsOwnLabel(cfg.checksumField) && IsValue(value)
    ensures Note(cfg, d, Labelled("Version", value)) == d.(ver := value)
  {
    hide HasPrefix, FieldCopy, SameText, Labelled;
    LineLabels(cfg, "Version", value);
    LabelsDiffer("Version");
  }

  lemma NoteArchitecture(cfg: Config, d: Details, value: string)
    requires IsOwnLabel(cfg.checksumField) && IsValue(value)
    ensures Note(cfg, d, Labelled("Architecture", value)) == d.(arch := value)
  {
    hide HasPrefix, FieldCopy, SameText, Labelled;
    LineLabels(cfg, "Architecture", value);
    LabelsDiffer("Architecture");
  }

  lemma NoteSize(cfg: Config, d: Details, value: string)
    requires IsOwnLabel(cfg.checksumField) && IsValue(value)
    ensures Note(cfg, d, Labelled("Size", value)) == d.(size := value)
  {
    hide HasPrefix, FieldCopy, SameText, Labelled;
    LineLabels(cfg, "Size", value);
    LabelsDiffer("Size");
  }

  lemma NoteChecksum(cfg: Config, d: Details, value: string)
    requires IsOwnLabel(cfg.checksumField) && IsValue(value)
    ensures Note(cfg, d, Labelled(cfg.checksumField, value)) == d.(checksum := value)
  {
    hide HasPrefix, FieldCopy, SameText, Labelled;
    LineLabels(cfg, cfg.checksumField, value);
    LabelsDiffer(cfg.checksumField);
    ChecksumLabel(cfg, Labelled(cfg.checksumField, value));
  }

  lemma NoteFilename(cfg: Config, d: Details, value: string)
    requires IsOwnLabel(cfg.checksumField) && IsValue(value)
    ensures Note(cfg, d, Labelled("Filename", value)) == d.(filename := value)
  {
    hide HasPrefix, FieldCopy, SameText, Labelled;
    LineLabels(cfg, "Filename", value);
    LabelsDiffer("Filename");
    SameTextSymmetric("Filename", cfg.checksumField);
    ChecksumLabel(cfg, Labelled("Filename", value));
  }

  lemma NoteAllFive(cfg: Config, d: Details, a: string, b: string, c: string, e: string, f: string)
    ensures NoteAll(cfg, d, [a, b, c, e, f]) == Note(cfg, Note(cfg, Note(cfg, Note(cfg, Note(cfg, d, a), b), c), e), f)
  {
    hide Note;
    assert [a, b, c, e, f][..4] == [a, b, c, e] && [a, b, c, e][..3] == [a, b, c];
    assert [a, b, c][..2] == [a, b] && [a, b][..1] == [a] && [a][..0] == [];
    assert NoteAll(cfg, d, [a]) == Note(cfg, d, a);
    assert NoteAll(cfg, d, [a, b]) == Note(cfg, Note(cfg, d, a), b);
    assert NoteAll(cfg, d, [a, b, c]) == Note(cfg, Note(cfg, Note(cfg, d, a), b), c);
  }

  /** The values of a stanza that has all five lines are those of the lines, whatever was there before. */
  lemma BodyIsNoted(cfg: Config, before: Details, d: Details)
    requires IsOwnLabel(cfg.checksumField) && AreValues(d)
    ensures NoteAll(cfg, before, Body(cfg, d)) == d
  {
    hide Note, IsOwnLabel, Labelled, NoteAll;
    var d1 := before.(ver := d.ver);
    var d2 := d1.(arch := d.arch);
    var d3 := d2.(size := d.size);
    var d4 := d3.(checksum := d.checksum);
    NoteVersion(cfg, before, d.ver);
    NoteArchitecture(cfg, d1, d.arch);
    NoteSize(cfg, d2, d.size);
    NoteChecksum(cfg, d3, d.checksum);
    NoteFilename(cfg, d4, d.filename);
    NoteAllFive(cfg, before, Labelled("Version", d.ver), Labelled("Architecture", d.arch), Labelled("Size", d.size),
                Labelled(cfg.checksumField, d.checksum), Labelled("Filename", d.filename));
  }

  /**
    A request whose first run of stanzas ends in one with all five lines is answered by
    that stanza's values, in the order of the program's output.
   */
  lemma StanzaIsPrinted(cfg: Config, zs: seq<Stanza>, names: seq<string>, requests: seq<string>, junk: Details,
                        i: nat, first: nat, last: nat, d: Details)
    requires UniqueMode(cfg) && Distinct(requests) && i < |requests|
    requires AreNamed(zs, names) && forall k :: 0 <= k < |zs| ==> IsBody(zs[k].body)
    requires EndsRun(names, requests[i], first, last)
    requires IsOwnLabel(cfg.checksumField) && AreValues(d) && zs[last].body == Body(cfg, d)
    ensures LinesFor(Finish(cfg, Run(cfg, Start(requests, junk), File(zs))), i)
         == [Found(i, requests[i] + " " + d.ver + " " + d.arch + " " + cfg.mirror + " " + d.filename + " "
                      + d.checksum + " " + d.size + "\n")]
  {
    hide Run, File, Finish, LinesFor, IsBody, Body, IsOwnLabel;
    NameIsAnswered(cfg, zs, names, requests, junk, i, first, last);
    BodyIsNoted(cfg, CurAfter(cfg, Start(requests, junk).cur, zs, last), d);
  }
}
