/**
  What the lookup of module PkgDetails answers on a file of blank-terminated stanzas:
  for every requested name the last stanza of the first run of consecutive stanzas with
  that name.
 */
module PkgStanzas {
  import opened CLibrary
  import opened Wrappers
  import opened PkgDetails

  /** A package line, further lines, and a blank line. */
  datatype Stanza = Stanza(header: string, body: seq<string>)

  predicate WellFormed(z: Stanza) {
    && IsPackage(z.header)
    && forall i :: 0 <= i < |z.body| ==> z.body[i] != [] && !IsPackage(z.body[i])
  }

  function Name(z: Stanza): string {
    FieldCopy("", z.header)
  }

  lemma {:induction false} ColonGivesValue(buf: string, i: nat)
    requires i < |buf| && buf[i] == ':'
    ensures FieldValue(buf).Some?
    decreases i
  {
    if buf[0] == ':' {
    } else {
      ColonGivesValue(buf[1..], i - 1);
    }
  }

  lemma HeaderHasName(z: Stanza)
    requires WellFormed(z)
    ensures forall dst :: FieldCopy(dst, z.header) == Name(z)
  {
    assert Lower(z.header[7]) == Lower("Package:"[7]) == ':';
    ColonGivesValue(z.header, 7);
  }

  function Rendered(z: Stanza): seq<string> {
    [z.header] + z.body + [""]
  }

  function File(zs: seq<Stanza>): seq<string> {
    if zs == [] then [] else File(zs[..|zs| - 1]) + Rendered(zs[|zs| - 1])
  }

  /** The fields after the lines of a stanza. */
  function NoteAll(cfg: Config, d: Details, body: seq<string>): Details {
    if body == [] then d else Note(cfg, NoteAll(cfg, d, body[..|body| - 1]), body[|body| - 1])
  }

  function CurAfter(cfg: Config, d: Details, zs: seq<Stanza>, k: nat): Details
    requires k <= |zs|
  {
    if k == 0 then d else NoteAll(cfg, CurAfter(cfg, d, zs, k - 1), zs[k - 1].body)
  }

  /** The line that stanza `k` would be answered with. */
  function Text(cfg: Config, d: Details, zs: seq<Stanza>, k: nat): string
    requires k < |zs|
  {
    Report(cfg, Name(zs[k]), CurAfter(cfg, d, zs, k + 1))
  }

  // ---- One stanza ----

  lemma {:induction false} RunConcat(cfg: Config, st: State, a: seq<string>, b: seq<string>)
    requires Proper(st)
    ensures Run(cfg, st, a + b) == Run(cfg, Run(cfg, st, a), b)
    decreases b
  {
    hide Step;
    if b == [] {
      assert a + b == a;
    } else {
      assert (a + b)[..|a + b| - 1] == a + b[..|b| - 1];
      RunConcat(cfg, st, a, b[..|b| - 1]);
    }
  }

  lemma RunOne(cfg: Config, st: State, line: string)
    requires Proper(st)
    ensures Run(cfg, st, [line]) == Step(cfg, st, line)
  {
    hide Step;
    assert [line][..0] == [];
  }

  predicate UniqueMode(cfg: Config) {
    cfg.uniq && cfg.fieldname == "Package:"
  }

  lemma {:induction false} RunBody(cfg: Config, st: State, body: seq<string>)
    requires UniqueMode(cfg) && Proper(st) && !st.stopped
    requires forall i :: 0 <= i < |body| ==> body[i] != [] && !IsPackage(body[i])
    ensures Run(cfg, st, body) == st.(cur := NoteAll(cfg, st.cur, body))
    decreases body
  {
    hide Note, StepPackage, StepBlank, HasPrefix;
    if body == [] {
    } else {
      RunBody(cfg, st, body[..|body| - 1]);
    }
  }

  function AfterHeader(cfg: Config, st: State, z: Stanza): (st': State)
    requires Proper(st)
  {
    var n := Name(z);
    var st1 := st.(field := n, pkg := n);
    (if n != st.prev then Flush(cfg, st1).(prev := n) else st1).(output := None, outputPkg := None)
  }

  lemma HeaderStep(cfg: Config, st: State, z: Stanza)
    requires UniqueMode(cfg) && Proper(st) && !st.stopped && WellFormed(z)
    ensures Step(cfg, st, z.header) == AfterHeader(cfg, st, z)
  {
    HeaderHasName(z);
    hide Flush, HasPrefix, FieldCopy;
  }

  lemma StanzaEffect(cfg: Config, st: State, z: Stanza)
    requires UniqueMode(cfg) && Proper(st) && !st.stopped && WellFormed(z)
    ensures var st1 := AfterHeader(cfg, st, z);
            && Proper(st1)
            && Run(cfg, st, Rendered(z)) == StepBlank(cfg, st1.(cur := NoteAll(cfg, st1.cur, z.body)))
  {
    hide Run, Step, AfterHeader, StepBlank;
    HeaderStep(cfg, st, z);
    HeaderProper(cfg, st, z);
    var st1 := AfterHeader(cfg, st, z);
    RunConcat(cfg, st, [z.header] + z.body, [""]);
    RunConcat(cfg, st, [z.header], z.body);
    RunOne(cfg, st, z.header);
    RunBody(cfg, st1, z.body);
    var st2 := st1.(cur := NoteAll(cfg, st1.cur, z.body));
    RunOne(cfg, st2, "");
    BlankStep(cfg, st2);
  }

  lemma HeaderProper(cfg: Config, st: State, z: Stanza)
    requires Proper(st) && !st.stopped
    ensures Proper(AfterHeader(cfg, st, z)) && !AfterHeader(cfg, st, z).stopped
  {
  }

  lemma BlankStep(cfg: Config, st: State)
    requires UniqueMode(cfg) && Proper(st) && !st.stopped
    ensures Step(cfg, st, "") == StepBlank(cfg, st)
  {
    hide StepBlank;
    assert !HasPrefix("", "Package:");
  }

  // ---- The first run of a name ----

  /** Not met yet; the run is still going on, with its last stanza; or the run is over. */
  datatype Status = Unseen | Open(last: nat) | Closed(last: nat)

  function FirstRun(zs: seq<Stanza>, name: string, k: nat): Status
    requires k <= |zs|
  {
    if k == 0 then Unseen
    else
      var before, here := FirstRun(zs, name, k - 1), Name(zs[k - 1]) == name;
      match before
      case Unseen => if here then Open(k - 1) else Unseen
      case Open(j) => if here then Open(k - 1) else Closed(j)
      case Closed(j) => before
  }

  /** `last` ends the run of stanzas that starts with the first one of that name. */
  predicate EndsFirstRun(zs: seq<Stanza>, name: string, first: nat, last: nat) {
    && first <= last < |zs|
    && (forall i :: 0 <= i < first ==> Name(zs[i]) != name)
    && (forall i :: first <= i <= last ==> Name(zs[i]) == name)
  }

  lemma {:induction false} FirstRunIs(zs: seq<Stanza>, name: string, k: nat)
    requires k <= |zs|
    ensures match FirstRun(zs, name, k)
            case Unseen => forall i :: 0 <= i < k ==> Name(zs[i]) != name
            case Open(j) => j == k - 1 && exists first :: EndsFirstRun(zs, name, first, j)
            case Closed(j) => j + 1 < k && Name(zs[j + 1]) != name && exists first :: EndsFirstRun(zs, name, first, j)
    decreases k
  {
    hide Name;
    if k == 0 {
    } else {
      FirstRunIs(zs, name, k - 1);
      match FirstRun(zs, name, k - 1) {
        case Unseen =>
          if Name(zs[k - 1]) == name { assert EndsFirstRun(zs, name, k - 1, k - 1); }
        case Open(j) =>
          var first :| EndsFirstRun(zs, name, first, j);
          if Name(zs[k - 1]) == name { assert EndsFirstRun(zs, name, first, k - 1); }
        case Closed(j) =>
      }
    }
  }

  // ---- The state between stanzas ----

  /** Where request `i` stands, by its status. */
  predicate Stands(cfg: Config, zs: seq<Stanza>, name: string, d: Details, st: State, i: nat, status: Status)
    requires i < |st.pkgs|
    requires status.Unseen? || status.last < |zs|
  {
    match status
    case Unseen => st.pkgs[i] == Some(name) && LinesFor(st.out, i) == []
    case Open(j) =>
      && st.pkgs[i] == Some(name) && LinesFor(st.out, i) == []
      && st.outputPkg == Some(i) && st.output == Some(Text(cfg, d, zs, j))
    case Closed(j) => st.pkgs[i] == None && LinesFor(st.out, i) == [Found(i, Text(cfg, d, zs, j))]
  }

  predicate Bounded(zs: seq<Stanza>, status: Status) {
    status.Unseen? || status.last < |zs|
  }

  lemma RunBounded(zs: seq<Stanza>, name: string, k: nat)
    requires k <= |zs|
    ensures Bounded(zs, FirstRun(zs, name, k))
  {
    FirstRunIs(zs, name, k);
  }

  predicate AllBounded(zs: seq<Stanza>, names: seq<string>, k: nat)
    requires k <= |zs|
  {
    forall i :: 0 <= i < |names| ==> Bounded(zs, FirstRun(zs, names[i], k))
  }

  predicate Between(cfg: Config, zs: seq<Stanza>, names: seq<string>, d: Details, st: State, k: nat)
    requires k <= |zs|
  {
    && Proper(st) && |st.pkgs| == |names| && AllBounded(zs, names, k)
    && (forall i :: 0 <= i < |names| ==> Stands(cfg, zs, names[i], d, st, i, FirstRun(zs, names[i], k)))
    && (st.outputPkg.Some? ==> FirstRun(zs, names[st.outputPkg.value], k).Open?)
    && (if st.stopped then forall i :: 0 <= i < |names| ==> FirstRun(zs, names[i], k).Closed?
        else st.prev == (if k == 0 then "" else Name(zs[k - 1])) && st.cur == CurAfter(cfg, d, zs, k))
  }

  predicate Distinct(names: seq<string>) {
    forall i, j :: 0 <= i < j < |names| ==> names[i] != names[j]
  }

  lemma LinesForOne(out: seq<Line>, line: Line, i: nat)
    ensures LinesFor(out + [line], i) == LinesFor(out, i) + if line.index == i then [line] else []
  {
    LinesForConcat(out, [line], i);
    assert [line][..0] == [];
  }

  /** Behind the package line of stanza `k` no run of another name is open any more. */
  predicate Behind(cfg: Config, zs: seq<Stanza>, names: seq<string>, d: Details, st: State, k: nat)
    requires k < |zs|
  {
    && Proper(st) && |st.pkgs| == |names| && AllBounded(zs, names, k + 1)
    && st.outputPkg == None && !st.stopped
    && st.field == st.pkg == st.prev == Name(zs[k])
    && forall i :: 0 <= i < |names| ==>
         if names[i] == Name(zs[k]) && !FirstRun(zs, names[i], k + 1).Closed?
         then st.pkgs[i] == Some(names[i]) && LinesFor(st.out, i) == []
         else Stands(cfg, zs, names[i], d, st, i, FirstRun(zs, names[i], k + 1)) && !FirstRun(zs, names[i], k + 1).Open?
  }

  lemma HeaderReached(cfg: Config, zs: seq<Stanza>, names: seq<string>, d: Details, st: State, k: nat)
    requires UniqueMode(cfg) && k < |zs| && Between(cfg, zs, names, d, st, k) && !st.stopped
    ensures Behind(cfg, zs, names, d, AfterHeader(cfg, st, zs[k]), k)
    ensures AfterHeader(cfg, st, zs[k]).cur == st.cur
  {
    hide Name, Text, LinesFor;
    var st1 := AfterHeader(cfg, st, zs[k]);
    HeaderProper(cfg, st, zs[k]);
    forall i | 0 <= i < |names| ensures Bounded(zs, FirstRun(zs, names[i], k + 1)) { RunBounded(zs, names[i], k + 1); }
    if st.outputPkg.Some? {
      var m := st.outputPkg.value;
      var line := Found(m, st.output.value);
      assert Stands(cfg, zs, names[m], d, st, m, FirstRun(zs, names[m], k));
      FirstRunIs(zs, names[m], k);
      forall i | 0 <= i < |names|
        ensures LinesFor(st.out + [line], i) == LinesFor(st.out, i) + if line.index == i then [line] else []
      {
        LinesForOne(st.out, line, i);
      }
    }
    forall i | 0 <= i < |names|
      ensures Stands(cfg, zs, names[i], d, st, i, FirstRun(zs, names[i], k))
      ensures FirstRun(zs, names[i], k).Open? ==> k > 0 && names[i] == Name(zs[k - 1])
    {
      FirstRunIs(zs, names[i], k);
    }
  }

  lemma BlankReached(cfg: Config, zs: seq<Stanza>, names: seq<string>, d: Details, st: State, k: nat)
    requires UniqueMode(cfg) && k < |zs| && Distinct(names)
    requires Behind(cfg, zs, names, d, st, k) && st.cur == CurAfter(cfg, d, zs, k + 1)
    ensures Between(cfg, zs, names, d, StepBlank(cfg, st), k + 1)
  {
    hide Name, LinesFor, CurAfter, Report;
    var st' := StepBlank(cfg, st);
    var m := Match(st.pkgs, st.field, 0);
    if m.Some? {
      assert names[m.value] == Name(zs[k]);
      assert st'.output == Some(Text(cfg, d, zs, k));
    }
  }

  lemma StoppedStays(cfg: Config, zs: seq<Stanza>, names: seq<string>, d: Details, st: State, k: nat)
    requires k < |zs| && Between(cfg, zs, names, d, st, k) && st.stopped
    ensures Between(cfg, zs, names, d, st, k + 1)
  {
    hide Name, LinesFor, Text;
    forall i | 0 <= i < |names|
      ensures FirstRun(zs, names[i], k + 1) == FirstRun(zs, names[i], k)
    {
    }
  }

  lemma {:induction false} RunStopped(cfg: Config, st: State, lines: seq<string>)
    requires Proper(st) && st.stopped
    ensures Run(cfg, st, lines) == st
    decreases lines
  {
    if lines == [] {
    } else {
      RunStopped(cfg, st, lines[..|lines| - 1]);
    }
  }

  lemma NextStanza(cfg: Config, zs: seq<Stanza>, names: seq<string>, d: Details, st: State, k: nat)
    requires UniqueMode(cfg) && Distinct(names) && k < |zs| && WellFormed(zs[k])
    requires Between(cfg, zs, names, d, st, k) && Proper(st)
    ensures Between(cfg, zs, names, d, Run(cfg, st, Rendered(zs[k])), k + 1)
  {
    hide Between, Run, StepBlank, AfterHeader, WellFormed, Rendered;
    if st.stopped {
      RunStopped(cfg, st, Rendered(zs[k]));
      StoppedStays(cfg, zs, names, d, st, k);
    } else {
      CurBetween(cfg, zs, names, d, st, k);
      StanzaEffect(cfg, st, zs[k]);
      HeaderReached(cfg, zs, names, d, st, k);
      var st1 := AfterHeader(cfg, st, zs[k]);
      var st2 := st1.(cur := NoteAll(cfg, st1.cur, zs[k].body));
      BehindIgnoresCur(cfg, zs, names, d, st1, st2, k);
      BlankReached(cfg, zs, names, d, st2, k);
    }
  }

  lemma CurBetween(cfg: Config, zs: seq<Stanza>, names: seq<string>, d: Details, st: State, k: nat)
    requires k < |zs| && Between(cfg, zs, names, d, st, k) && !st.stopped
    ensures NoteAll(cfg, st.cur, zs[k].body) == CurAfter(cfg, d, zs, k + 1)
  {
  }

  lemma BehindIgnoresCur(cfg: Config, zs: seq<Stanza>, names: seq<string>, d: Details, st: State, st': State, k: nat)
    requires k < |zs| && Behind(cfg, zs, names, d, st, k) && st' == st.(cur := st'.cur)
    ensures Behind(cfg, zs, names, d, st', k)
  {
    hide Name, LinesFor, Text, FirstRun;
    forall i | 0 <= i < |names| && Stands(cfg, zs, names[i], d, st, i, FirstRun(zs, names[i], k + 1))
      ensures Stands(cfg, zs, names[i], d, st', i, FirstRun(zs, names[i], k + 1))
    {
    }
  }

  lemma {:induction false} FileRun(cfg: Config, zs: seq<Stanza>, names: seq<string>, d: Details, st: State, k: nat)
    requires UniqueMode(cfg) && Distinct(names) && k <= |zs|
    requires (forall i :: 0 <= i < |zs| ==> WellFormed(zs[i])) && Between(cfg, zs, names, d, st, 0)
    requires !st.stopped
    ensures Between(cfg, zs, names, d, Run(cfg, st, File(zs[..k])), k)
    decreases k
  {
    hide Between, Run, StepBlank, AfterHeader, Behind, WellFormed, Rendered, NoteAll;
    if k == 0 {
      StartIsProper(cfg, zs, names, d, st);
      RunNothing(cfg, st);
    } else {
      FileRun(cfg, zs, names, d, st, k - 1);
      assert zs[..k][..k - 1] == zs[..k - 1];
      StartIsProper(cfg, zs, names, d, st);
      RunConcat(cfg, st, File(zs[..k - 1]), Rendered(zs[k - 1]));
      NextStanza(cfg, zs, names, d, Run(cfg, st, File(zs[..k - 1])), k - 1);
    }
  }

  lemma RunNothing(cfg: Config, st: State)
    requires Proper(st)
    ensures Run(cfg, st, []) == st
  {
  }

  lemma StartIsProper(cfg: Config, zs: seq<Stanza>, names: seq<string>, d: Details, st: State)
    requires Between(cfg, zs, names, d, st, 0)
    ensures Proper(st)
  {
  }

  // ---- The answers ----

  /** The answer to a request: the last stanza of the first run, or none. */
  function Answer(cfg: Config, d: Details, zs: seq<Stanza>, name: string, i: nat): Line {
    match FirstRun(zs, name, |zs|)
    case Unseen => Missing(i, name)
    case Open(j) => RunBounded(zs, name, |zs|); Found(i, Text(cfg, d, zs, j))
    case Closed(j) => RunBounded(zs, name, |zs|); Found(i, Text(cfg, d, zs, j))
  }

  /**
    On a file of stanzas, for distinct names: the one line for every request is the last
    stanza of the first run of stanzas with its name, or "name -" if there is none.
   */
  lemma FirstRunIsAnswered(cfg: Config, zs: seq<Stanza>, names: seq<string>, junk: Details, i: nat)
    requires UniqueMode(cfg) && Distinct(names) && i < |names|
    requires forall k :: 0 <= k < |zs| ==> WellFormed(zs[k])
    ensures var start := Start(names, junk);
            LinesFor(Finish(cfg, Run(cfg, start, File(zs))), i) == [Answer(cfg, start.cur, zs, names[i], i)]
  {
    hide Run, File, WellFormed, Text, Name, LinesFor;
    var start := Start(names, junk);
    var d := start.cur;
    var st := Run(cfg, start, File(zs));
    StartBetween(cfg, zs, names, junk);
    assert zs[..|zs|] == zs;
    FileRun(cfg, zs, names, d, start, |zs|);
    assert Stands(cfg, zs, names[i], d, st, i, FirstRun(zs, names[i], |zs|));
    var st1 := Flush(cfg, st);
    if st.outputPkg.Some? { LinesForOne(st.out, Found(st.outputPkg.value, st.output.value), i); }
    LinesForMissing(st1.pkgs, 0, i);
    LinesForConcat(st1.out, MissingFrom(st1.pkgs, 0), i);
  }

  lemma StartBetween(cfg: Config, zs: seq<Stanza>, names: seq<string>, junk: Details)
    ensures Between(cfg, zs, names, Start(names, junk).cur, Start(names, junk), 0)
  {
  }
}
