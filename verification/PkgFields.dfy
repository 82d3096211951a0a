/**
  Where the fields of an answered line come from.  They are kept from stanza to stanza, so
  a stanza that lacks a field is printed with the field of an earlier one.
 */
module PkgFields {
  import opened CLibrary
  import opened Wrappers
  import opened PkgDetails
  import opened PkgStanzas

  datatype Field = Ver | Arch | Size | Checksum | Filename

  function Get(d: Details, f: Field): string {
    match f
    case Ver => d.ver
    case Arch => d.arch
    case Size => d.size
    case Checksum => d.checksum
    case Filename => d.filename
  }

  /** The field that a line is for: the first whose label it begins with. */
  function FieldOf(cfg: Config, buf: string): Option<Field> {
    if HasPrefix(buf, "Version:") then Some(Ver)
    else if HasPrefix(buf, "Architecture:") then Some(Arch)
    else if HasPrefix(buf, "Size:") then Some(Size)
    else if HasPrefix(buf, cfg.checksumField + ":") then Some(Checksum)
    else if HasPrefix(buf, "Filename:") then Some(Filename)
    else None
  }

  /** Some line of the body is for the field. */
  predicate Mentions(cfg: Config, body: seq<string>, f: Field) {
    exists i :: 0 <= i < |body| && FieldOf(cfg, body[i]) == Some(f)
  }

  predicate IsComplete(cfg: Config, body: seq<string>) {
    forall f: Field :: Mentions(cfg, body, f)
  }

  // ---- One line ----

  lemma LabelHasValue(buf: string, tag: string)
    requires HasPrefix(buf, tag) && tag != [] && tag[|tag| - 1] == ':'
    ensures FieldValue(buf).Some?
  {
    assert Lower(buf[|tag| - 1]) == ':';
    ColonGivesValue(buf, |tag| - 1);
  }

  lemma ChecksumLabel(cfg: Config, buf: string)
    ensures HasPrefix(buf, cfg.checksumField + ":")
       <==> HasPrefix(buf, cfg.checksumField) && |buf| > |cfg.checksumField| && buf[|cfg.checksumField|] == ':'
  {
    var tag := cfg.checksumField;
    assert forall i :: 0 <= i < |tag| ==> (tag + ":")[i] == tag[i];
    assert (tag + ":")[|tag|] == ':';
    if HasPrefix(buf, tag) && |buf| > |tag| && buf[|tag|] == ':' {
      forall i | 0 <= i < |tag + ":"| ensures Lower(buf[i]) == Lower((tag + ":")[i]) {}
    }
    if HasPrefix(buf, tag + ":") { assert Lower(buf[|tag|]) == Lower((tag + ":")[|tag|]); }
  }

  /** A line replaces the value of its field by its own, and leaves the others alone. */
  lemma NoteIs(cfg: Config, d: Details, buf: string, f: Field)
    ensures Get(Note(cfg, d, buf), f) == if FieldOf(cfg, buf) == Some(f) then FieldCopy("", buf) else Get(d, f)
  {
    ChecksumLabel(cfg, buf);
    if FieldOf(cfg, buf) == Some(f) {
      LabelHasValue(buf, match f
                         case Ver => "Version:"
                         case Arch => "Architecture:"
                         case Size => "Size:"
                         case Checksum => cfg.checksumField + ":"
                         case Filename => "Filename:");
    }
    hide HasPrefix, FieldValue;
  }

  // ---- A stanza ----

  /** The value of the last line for the field. */
  function LastValue(cfg: Config, body: seq<string>, f: Field): string {
    if body == [] then ""
    else
      var last := body[|body| - 1];
      if FieldOf(cfg, last) == Some(f) then FieldCopy("", last) else LastValue(cfg, body[..|body| - 1], f)
  }

  lemma MentionsNext(cfg: Config, body: seq<string>, f: Field)
    requires body != []
    ensures Mentions(cfg, body, f)
       <==> FieldOf(cfg, body[|body| - 1]) == Some(f) || Mentions(cfg, body[..|body| - 1], f)
  {
    hide FieldOf;
    var front := body[..|body| - 1];
    if i :| 0 <= i < |front| && FieldOf(cfg, front[i]) == Some(f) { assert FieldOf(cfg, body[i]) == Some(f); }
    if i :| 0 <= i < |body| && FieldOf(cfg, body[i]) == Some(f) {
      if i < |front| { assert FieldOf(cfg, front[i]) == Some(f); }
    }
  }

  /** After a stanza, a field is the last it mentions, or what it was before. */
  lemma {:induction false} NotedIs(cfg: Config, d: Details, body: seq<string>, f: Field)
    ensures Get(NoteAll(cfg, d, body), f) == if Mentions(cfg, body, f) then LastValue(cfg, body, f) else Get(d, f)
    decreases body
  {
    hide Note, FieldOf, FieldCopy, Get, Mentions;
    if body == [] {
      NothingMentioned(cfg, f);
    } else {
      var front := body[..|body| - 1];
      NotedIs(cfg, d, front, f);
      NoteIs(cfg, NoteAll(cfg, d, front), body[|body| - 1], f);
      MentionsNext(cfg, body, f);
    }
  }

  lemma NothingMentioned(cfg: Config, f: Field)
    ensures !Mentions(cfg, [], f)
  {
  }

  /**
    In a file of stanzas a field printed for stanza `k` is the last that the stanza mentions;
    one that it does not mention is the field of the stanza before.
   */
  lemma FieldComesFrom(cfg: Config, d: Details, zs: seq<Stanza>, k: nat, f: Field)
    requires k < |zs|
    ensures Get(CurAfter(cfg, d, zs, k + 1), f) ==
            if Mentions(cfg, zs[k].body, f) then LastValue(cfg, zs[k].body, f) else Get(CurAfter(cfg, d, zs, k), f)
  {
    hide Get, Mentions, LastValue, NoteAll;
    NotedIs(cfg, CurAfter(cfg, d, zs, k), zs[k].body, f);
  }

  // ---- When a line is the stanza's own ----

  lemma SameDetails(d: Details, e: Details)
    requires forall f :: Get(d, f) == Get(e, f)
    ensures d == e
  {
    assert Get(d, Ver) == Get(e, Ver) && Get(d, Arch) == Get(e, Arch) && Get(d, Size) == Get(e, Size);
    assert Get(d, Checksum) == Get(e, Checksum) && Get(d, Filename) == Get(e, Filename);
  }

  /** Every field is empty, but `f` is `s`. */
  function Only(f: Field, s: string): Details {
    match f
    case Ver => Details(s, "", "", "", "")
    case Arch => Details("", s, "", "", "")
    case Size => Details("", "", s, "", "")
    case Checksum => Details("", "", "", s, "")
    case Filename => Details("", "", "", "", s)
  }

  function Length(d: Details): nat {
    |d.ver| + |d.arch| + |d.size| + |d.checksum| + |d.filename|
  }

  lemma ReportLength(cfg: Config, pkg: string, d: Details)
    ensures |Report(cfg, pkg, d)| == |pkg| + |cfg.mirror| + Length(d) + 7
  {
  }

  /** Only the field that a stanza lacks tells two starts apart. */
  lemma LacksField(cfg: Config, body: seq<string>, f: Field)
    requires !Mentions(cfg, body, f)
    ensures Length(NoteAll(cfg, Only(f, "x"), body)) == Length(NoteAll(cfg, Only(f, ""), body)) + 1
  {
    var d, e := NoteAll(cfg, Only(f, "x"), body), NoteAll(cfg, Only(f, ""), body);
    forall g: Field ensures |Get(d, g)| == |Get(e, g)| + (if g == f then 1 else 0) {
      NotedIs(cfg, Only(f, "x"), body, g);
      NotedIs(cfg, Only(f, ""), body, g);
    }
    hide Mentions, NoteAll;
    assert |Get(d, Ver)| + |Get(d, Arch)| + |Get(d, Size)| + |Get(d, Checksum)| + |Get(d, Filename)|
        == |Get(e, Ver)| + |Get(e, Arch)| + |Get(e, Size)| + |Get(e, Checksum)| + |Get(e, Filename)| + 1;
  }

  /**
    The line printed for a stanza is the same after whatever stanzas came before it, if and
    only if its body has a line for each of the five fields.
   */
  lemma OwnLineIff(cfg: Config, pkg: string, body: seq<string>)
    ensures (forall d, e :: Report(cfg, pkg, NoteAll(cfg, d, body)) == Report(cfg, pkg, NoteAll(cfg, e, body)))
       <==> IsComplete(cfg, body)
  {
    hide Report, NoteAll, Mentions, Only, Length;
    if IsComplete(cfg, body) {
      forall d, e ensures NoteAll(cfg, d, body) == NoteAll(cfg, e, body) {
        forall f ensures Get(NoteAll(cfg, d, body), f) == Get(NoteAll(cfg, e, body), f) {
          NotedIs(cfg, d, body, f);
          NotedIs(cfg, e, body, f);
        }
        SameDetails(NoteAll(cfg, d, body), NoteAll(cfg, e, body));
      }
    } else {
      var f: Field :| !Mentions(cfg, body, f);
      LacksField(cfg, body, f);
      ReportLength(cfg, pkg, NoteAll(cfg, Only(f, "x"), body));
      ReportLength(cfg, pkg, NoteAll(cfg, Only(f, ""), body));
    }
  }

  /** A complete stanza is answered from its own lines, wherever it stands. */
  lemma CompleteIsOwn(cfg: Config, d: Details, zs: seq<Stanza>, k: nat)
    requires k < |zs| && IsComplete(cfg, zs[k].body)
    ensures Text(cfg, d, zs, k) == Text(cfg, d, [zs[k]], 0)
  {
    hide Report, NoteAll, IsComplete;
    OwnLineIff(cfg, Name(zs[k]), zs[k].body);
    assert CurAfter(cfg, d, zs, k + 1) == NoteAll(cfg, CurAfter(cfg, d, zs, k), zs[k].body);
    assert CurAfter(cfg, d, [zs[k]], 0) == d && CurAfter(cfg, d, [zs[k]], 1) == NoteAll(cfg, d, zs[k].body);
  }

  /** A stanza without lines is answered with all the fields of the stanza before it. */
  lemma EmptyStanzaLeaks(cfg: Config, d: Details, zs: seq<Stanza>, k: nat)
    requires 0 < k < |zs| && zs[k].body == []
    ensures Text(cfg, d, zs, k) == Report(cfg, Name(zs[k]), CurAfter(cfg, d, zs, k))
  {
  }
}
