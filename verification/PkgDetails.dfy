/**
  The package lookup of pkgdetails.c: one pass over the lines of a package file that
  prints one line for every requested package.
 */
module PkgDetails {
  import opened CLibrary
  import opened Wrappers

  /** The fields of the current stanza; they are not reset between stanzas. */
  datatype Details = Details(ver: string, arch: string, size: string, checksum: string, filename: string)

  /** In unique mode `fieldname` is "Package:" and every package is answered once. */
  datatype Config = Config(uniq: bool, fieldname: string, checksumField: string, mirror: string)

  /** A printed line, together with the index of the request that it answers. */
  datatype Line = Found(index: nat, text: string) | Missing(index: nat, name: string)

  /** The text behind the first colon, without leading white space. */
  function FieldValue(buf: string): Option<string> {
    if buf == [] then None
    else if buf[0] == ':' then Some(SkipSpace(buf[1..]))
    else FieldValue(buf[1..])
  }

  /** Copies the value, or leaves the destination alone if there is no colon. */
  function FieldCopy(dst: string, buf: string): string {
    match FieldValue(buf) case None => dst case Some(value) => value
  }

  function Report(cfg: Config, pkg: string, d: Details): string {
    pkg + " " + d.ver + " " + d.arch + " " + cfg.mirror + " " + d.filename + " " + d.checksum + " " + d.size + "\n"
  }

  // ---- One line ----

  datatype State = State(field: string, pkg: string, prev: string, cur: Details,
                         output: Option<string>, outputPkg: Option<nat>,
                         pkgs: seq<Option<string>>, out: seq<Line>, stopped: bool)

  predicate IsPackage(buf: string) {
    HasPrefix(buf, "Package:")
  }

  /** What a line that is neither a package line nor blank does to the current fields. */
  function Note(cfg: Config, d: Details, buf: string): Details {
    if HasPrefix(buf, "Version:") then d.(ver := FieldCopy(d.ver, buf))
    else if HasPrefix(buf, "Architecture:") then d.(arch := FieldCopy(d.arch, buf))
    else if HasPrefix(buf, "Size:") then d.(size := FieldCopy(d.size, buf))
    else if HasPrefix(buf, cfg.checksumField) && |buf| > |cfg.checksumField| && buf[|cfg.checksumField|] == ':'
      then d.(checksum := FieldCopy(d.checksum, buf))
    else if HasPrefix(buf, "Filename:") then d.(filename := FieldCopy(d.filename, buf))
    else d
  }

  /** The first open request for a name. */
  function Match(pkgs: seq<Option<string>>, name: string, from: nat): (i: Option<nat>)
    requires from <= |pkgs|
    ensures i.Some? ==> from <= i.value < |pkgs| && pkgs[i.value] == Some(name)
    ensures forall j :: from <= j < (if i.Some? then i.value else |pkgs|) ==> pkgs[j] != Some(name)
    decreases |pkgs| - from
  {
    if from == |pkgs| then None
    else if pkgs[from] == Some(name) then Some(from)
    else Match(pkgs, name, from + 1)
  }

  predicate AnyOpen(pkgs: seq<Option<string>>) {
    exists i :: 0 <= i < |pkgs| && pkgs[i].Some?
  }

  /** Prints the pending line, and in unique mode closes its request. */
  function Flush(cfg: Config, st: State): State
    requires st.outputPkg.Some? ==> st.outputPkg.value < |st.pkgs|
  {
    var out :=
      if st.output.Some? && st.outputPkg.Some? then st.out + [Found(st.outputPkg.value, st.output.value)] else st.out;
    var pkgs := if cfg.uniq && st.outputPkg.Some? then st.pkgs[st.outputPkg.value := None] else st.pkgs;
    st.(out := out, pkgs := pkgs)
  }

  predicate Proper(st: State) {
    && (st.output.Some? <==> st.outputPkg.Some?)
    && (st.outputPkg.Some? ==> st.outputPkg.value < |st.pkgs| && st.pkgs[st.outputPkg.value].Some?)
  }

  function StepPackage(cfg: Config, st: State, buf: string): (st': State)
    requires Proper(st)
    ensures Proper(st') && |st'.pkgs| == |st.pkgs|
  {
    var st1 := st.(pkg := FieldCopy(st.pkg, buf));
    var st2 := if st1.pkg != st1.prev then Flush(cfg, st1).(prev := st1.pkg) else st1;
    st2.(output := None, outputPkg := None)
  }

  function StepBlank(cfg: Config, st: State): (st': State)
    requires Proper(st)
    ensures Proper(st') && |st'.pkgs| == |st.pkgs|
  {
    var m := Match(st.pkgs, st.field, 0);
    if m.Some? then
      st.(output := Some(Report(cfg, st.pkg, st.cur)), outputPkg := m, field := "")
    else if !AnyOpen(st.pkgs) then st.(stopped := true)
    else st.(field := "")
  }

  function Step(cfg: Config, st: State, buf: string): (st': State)
    requires Proper(st)
    ensures Proper(st') && |st'.pkgs| == |st.pkgs|
  {
    if st.stopped then st
    else
      var st1 := if HasPrefix(buf, cfg.fieldname) then st.(field := FieldCopy(st.field, buf)) else st;
      if IsPackage(buf) then StepPackage(cfg, st1, buf)
      else if buf == [] then StepBlank(cfg, st1)
      else st1.(cur := Note(cfg, st1.cur, buf))
  }

  function Run(cfg: Config, st: State, lines: seq<string>): (st': State)
    requires Proper(st)
    ensures Proper(st') && |st'.pkgs| == |st.pkgs|
  {
    if lines == [] then st else Step(cfg, Run(cfg, st, lines[..|lines| - 1]), lines[|lines| - 1])
  }

  /** The open requests, each reported as missing. */
  function MissingFrom(pkgs: seq<Option<string>>, from: nat): seq<Line>
    requires from <= |pkgs|
    decreases |pkgs| - from
  {
    if from == |pkgs| then []
    else (if pkgs[from].Some? then [Missing(from, pkgs[from].value)] else []) + MissingFrom(pkgs, from + 1)
  }

  function Finish(cfg: Config, st: State): seq<Line>
    requires Proper(st)
  {
    var st1 := Flush(cfg, st);
    if cfg.uniq then st1.out + MissingFrom(st1.pkgs, 0) else st1.out
  }

  function Requests(names: seq<string>): (pkgs: seq<Option<string>>)
    ensures |pkgs| == |names|
  {
    seq(|names|, i requires 0 <= i < |names| => Some(names[i]))
  }

  /** The buffers of the size and the checksum are not initialised; `junk` is what they hold. */
  function Start(names: seq<string>, junk: Details): (st: State)
    ensures Proper(st)
  {
    State("", "", "", junk.(ver := "", arch := "", filename := ""), None, None, Requests(names), [], false)
  }

  method DoPkgMirrorPkgs(cfg: Config, lines: seq<string>, names: seq<string>, junk: Details) returns (out: seq<Line>)
    ensures out == Finish(cfg, Run(cfg, Start(names, junk), lines))
  {
    hide Note, HasPrefix, FieldCopy, Report, Match, AnyOpen, Run;
    var pkgs := new Option<string>[|names|](i requires 0 <= i < |names| => Some(names[i]));
    assert pkgs[..] == Requests(names);
    ghost var start := Start(names, junk);
    var field, pkg, prev := "", "", "";
    var cur := junk.(ver := "", arch := "", filename := "");
    var output: Option<string>, outputPkg: Option<nat> := None, None;
    out := [];
    var i := 0;
    ghost var st := start;
    assert lines[..0] == [];
    RunNone(cfg, start);
    while i < |lines|
      invariant 0 <= i <= |lines|
      invariant st == Run(cfg, start, lines[..i])
      invariant Proper(st) && st == State(field, pkg, prev, cur, output, outputPkg, pkgs[..], out, false)
    {
      RunNext(cfg, start, lines, i);
      st := Step(cfg, st, lines[i]);
      var buf := lines[i];
      i := i + 1;
      if HasPrefix(buf, cfg.fieldname) {
        field := FieldCopy(field, buf);
      }
      if IsPackage(buf) {
        pkg := FieldCopy(pkg, buf);
        if pkg != prev {
          if output.Some? {
            out := out + [Found(outputPkg.value, output.value)];
          }
          if cfg.uniq && outputPkg.Some? {
            pkgs[outputPkg.value] := None;
          }
          prev := pkg;
        }
        output, outputPkg := None, None;
      } else if buf != [] {
        cur := Note(cfg, cur, buf);
      } else {
        MatchIsOpen(pkgs[..], field);
        var m, any := Lookup(pkgs, field);
        if m.Some? {
          output := Some(Report(cfg, pkg, cur));
          outputPkg := m;
        }
        if !any {
          Stopped(cfg, start, lines, i);
          break;
        }
        field := "";
      }
    }
    assert lines[..|lines|] == lines;
    if output.Some? {
      out := out + [Found(outputPkg.value, output.value)];
    }
    if cfg.uniq && outputPkg.Some? {
      pkgs[outputPkg.value] := None;
    }
    if cfg.uniq {
      var missing := PrintMissing(pkgs);
      out := out + missing;
    }
  }

  lemma RunNone(cfg: Config, st: State)
    requires Proper(st)
    ensures Run(cfg, st, []) == st
  {
  }

  lemma RunNext(cfg: Config, st: State, lines: seq<string>, i: nat)
    requires Proper(st) && i < |lines|
    ensures Run(cfg, st, lines[..i + 1]) == Step(cfg, Run(cfg, st, lines[..i]), lines[i])
  {
    hide Step;
    assert lines[..i + 1][..i] == lines[..i];
  }

  /** Any that were not found. */
  method PrintMissing(pkgs: array<Option<string>>) returns (out: seq<Line>)
    ensures out == MissingFrom(pkgs[..], 0)
  {
    out := [];
    for k := 0 to pkgs.Length
      invariant out + MissingFrom(pkgs[..], k) == MissingFrom(pkgs[..], 0)
    {
      if pkgs[k].Some? {
        out := out + [Missing(k, pkgs[k].value)];
      }
    }
  }

  /** The loop over the requests at a blank line. */
  method Lookup(pkgs: array<Option<string>>, name: string) returns (m: Option<nat>, any: bool)
    ensures m == Match(pkgs[..], name, 0)
    ensures any == AnyOpen(pkgs[..])
  {
    any := false;
    var i := 0;
    while i < pkgs.Length
      invariant 0 <= i <= pkgs.Length
      invariant any == AnyOpen(pkgs[..i])
      invariant Match(pkgs[..], name, 0) == Match(pkgs[..], name, i)
    {
      if pkgs[i].Some? {
        any := true;
        assert pkgs[..][i].Some?;
        if pkgs[i].value == name {
          return Some(i), any;
        }
      }
      i := i + 1;
    }
    assert pkgs[..i] == pkgs[..];
    m := None;
  }

  lemma MatchIsOpen(pkgs: seq<Option<string>>, name: string)
    ensures Match(pkgs, name, 0).Some? ==> AnyOpen(pkgs)
  {
  }

  lemma {:induction false} Stopped(cfg: Config, st: State, lines: seq<string>, i: nat)
    requires Proper(st) && i <= |lines| && Run(cfg, st, lines[..i]).stopped
    ensures Run(cfg, st, lines) == Run(cfg, st, lines[..i])
    decreases |lines|
  {
    hide StepPackage, StepBlank;
    if i < |lines| {
      var before := lines[..|lines| - 1];
      assert before[..i] == lines[..i];
      Stopped(cfg, st, before, i);
    } else {
      assert lines[..i] == lines;
    }
  }

  // ---- Exactly one line for every request ----

  function LinesFor(out: seq<Line>, i: nat): seq<Line> {
    if out == [] then []
    else LinesFor(out[..|out| - 1], i) + if out[|out| - 1].index == i then [out[|out| - 1]] else []
  }

  lemma {:induction false} LinesForConcat(a: seq<Line>, b: seq<Line>, i: nat)
    ensures LinesFor(a + b, i) == LinesFor(a, i) + LinesFor(b, i)
    decreases b
  {
    if b == [] {
      assert a + b == a;
    } else {
      assert (a + b)[..|a + b| - 1] == a + b[..|b| - 1];
      LinesForConcat(a, b[..|b| - 1], i);
    }
  }

  lemma {:induction false} LinesForMissing(pkgs: seq<Option<string>>, from: nat, i: nat)
    requires from <= |pkgs|
    ensures LinesFor(MissingFrom(pkgs, from), i)
         == if from <= i < |pkgs| && pkgs[i].Some? then [Missing(i, pkgs[i].value)] else []
    decreases |pkgs| - from
  {
    if from == |pkgs| {
    } else {
      LinesForMissing(pkgs, from + 1, i);
      var head := if pkgs[from].Some? then [Missing(from, pkgs[from].value)] else [];
      LinesForConcat(head, MissingFrom(pkgs, from + 1), i);
    }
  }

  /** Every request is open, or closed with one line that answers it. */
  predicate Answered(st: State, names: seq<string>) {
    && |st.pkgs| == |names|
    && forall i :: 0 <= i < |names| ==>
         if st.pkgs[i].Some? then st.pkgs[i].value == names[i] && LinesFor(st.out, i) == []
         else |LinesFor(st.out, i)| == 1 && LinesFor(st.out, i)[0].Found?
  }

  lemma FlushAnswers(cfg: Config, st: State, names: seq<string>)
    requires cfg.uniq && Proper(st) && Answered(st, names)
    ensures Answered(Flush(cfg, st), names)
  {
    if st.outputPkg.Some? {
      var line := Found(st.outputPkg.value, st.output.value);
      forall i | 0 <= i < |names|
        ensures LinesFor(st.out + [line], i) == LinesFor(st.out, i) + if i == line.index then [line] else []
      {
        LinesForConcat(st.out, [line], i);
        assert [line][..0] == [] && LinesFor([line], i) == if i == line.index then [line] else [];
      }
    }
  }

  lemma StepAnswers(cfg: Config, st: State, names: seq<string>, buf: string)
    requires cfg.uniq && Proper(st) && Answered(st, names)
    ensures Answered(Step(cfg, st, buf), names)
  {
    hide Note, HasPrefix, FieldCopy, Report, Match, AnyOpen, Flush, LinesFor;
    var st1 := if HasPrefix(buf, cfg.fieldname) then st.(field := FieldCopy(st.field, buf)) else st;
    FlushAnswers(cfg, st1.(pkg := FieldCopy(st1.pkg, buf)), names);
  }

  lemma {:induction false} RunAnswers(cfg: Config, st: State, names: seq<string>, lines: seq<string>)
    requires cfg.uniq && Proper(st) && Answered(st, names)
    ensures Answered(Run(cfg, st, lines), names)
    decreases |lines|
  {
    hide Step;
    if lines == [] {
    } else {
      RunAnswers(cfg, st, names, lines[..|lines| - 1]);
      StepAnswers(cfg, Run(cfg, st, lines[..|lines| - 1]), names, lines[|lines| - 1]);
    }
  }

  /** In unique mode every request gets exactly one line, whatever the file contains. */
  lemma OneLineEach(cfg: Config, names: seq<string>, junk: Details, lines: seq<string>, i: nat)
    requires cfg.uniq && i < |names|
    ensures var answers := LinesFor(Finish(cfg, Run(cfg, Start(names, junk), lines)), i);
            |answers| == 1 && (answers[0].Missing? ==> answers[0].name == names[i])
  {
    hide Run, LinesFor, Flush;
    var start := Start(names, junk);
    assert Answered(start, names) by { NoLines(names, junk); }
    RunAnswers(cfg, start, names, lines);
    var st := Run(cfg, start, lines);
    FlushAnswers(cfg, st, names);
    var st1 := Flush(cfg, st);
    LinesForMissing(st1.pkgs, 0, i);
    LinesForConcat(st1.out, MissingFrom(st1.pkgs, 0), i);
  }

  lemma NoLines(names: seq<string>, junk: Details)
    ensures Answered(Start(names, junk), names)
  {
  }
}
