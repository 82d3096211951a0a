/**
  The packets of wattsup.c: `wu_write` prints a command with its fields into the packet
  buffer, and `parse_packet` cuts a received packet up in place.
 */
module WattsUp {
  import opened CLibrary
  import Words
  import opened Wrappers

  const WU_STRLEN := 256

  datatype Errno = EFAULT | EOVERFLOW

  // ---- Numbers in text ----

  function Digit(d: nat): char
    requires d < 10
  {
    '0' + d as char
  }

  function Decimal(n: nat): (s: string)
    ensures |s| > 0 && forall i :: 0 <= i < |s| ==> '0' <= s[i] <= '9'
  {
    if n < 10 then [Digit(n)] else Decimal(n / 10) + [Digit(n % 10)]
  }

  /** The value of the digits at the front of a string, after those already read. */
  function Digits(s: string, acc: nat): nat
    decreases s
  {
    if s != [] && '0' <= s[0] <= '9' then Digits(s[1..], 10 * acc + (s[0] as int - '0' as int)) else acc
  }

  function Atoi(s: string): int {
    var t := SkipSpace(s);
    if t != [] && t[0] == '-' then 0 - Digits(t[1..], 0) as int
    else if t != [] && t[0] == '+' then Digits(t[1..], 0)
    else Digits(t, 0)
  }

  lemma {:induction false} DigitsSnoc(s: string, d: nat, acc: nat)
    requires d < 10 && forall i :: 0 <= i < |s| ==> '0' <= s[i] <= '9'
    ensures Digits(s + [Digit(d)], acc) == 10 * Digits(s, acc) + d
    decreases s
  {
    if s == [] {
      assert (s + [Digit(d)])[1..] == [];
    } else {
      assert (s + [Digit(d)])[1..] == s[1..] + [Digit(d)];
      DigitsSnoc(s[1..], d, 10 * acc + (s[0] as int - '0' as int));
    }
  }

  lemma {:induction false} DigitsOfDecimal(n: nat)
    ensures Digits(Decimal(n), 0) == n
  {
    if n < 10 {
      assert Decimal(n)[1..] == [];
    } else {
      DigitsOfDecimal(n / 10);
      DigitsSnoc(Decimal(n / 10), n % 10, 0);
    }
  }

  lemma AtoiOfDecimal(n: nat)
    ensures Atoi(Decimal(n)) == n
  {
    DigitsOfDecimal(n);
  }

  lemma {:induction false} DigitsStop(s: string, rest: string, acc: nat)
    requires forall i :: 0 <= i < |s| ==> '0' <= s[i] <= '9'
    requires rest == "" || !('0' <= rest[0] <= '9')
    ensures Digits(s + rest, acc) == Digits(s, acc)
    decreases s
  {
    if s == "" {
      assert s + rest == rest;
    } else {
      assert (s + rest)[1..] == s[1..] + rest;
      DigitsStop(s[1..], rest, 10 * acc + (s[0] as int - '0' as int));
    }
  }

  lemma {:induction false} SpacesSkipped(spaces: string, s: string)
    requires (forall i :: 0 <= i < |spaces| ==> spaces[i] == ' ') && s != "" && !IsSpace(s[0])
    ensures SkipSpace(spaces + s) == s
    decreases spaces
  {
    if spaces == "" {
      assert spaces + s == s;
    } else {
      assert (spaces + s)[1..] == spaces[1..] + s;
      SpacesSkipped(spaces[1..], s);
    }
  }

  /** Blanks, a sign, digits, and whatever follows that is not a digit. */
  lemma AtoiReads(spaces: string, sign: string, n: nat, rest: string)
    requires forall i :: 0 <= i < |spaces| ==> spaces[i] == ' '
    requires sign in {"", "+", "-"} && (rest == "" || !('0' <= rest[0] <= '9'))
    ensures Atoi(spaces + sign + Decimal(n) + rest) == if sign == "-" then 0 - n as int else n
  {
    hide Decimal, Digits, SkipSpace;
    var digits := Decimal(n) + rest;
    var s := sign + digits;
    assert spaces + sign + Decimal(n) + rest == spaces + s;
    DigitsStop(Decimal(n), rest, 0);
    DigitsOfDecimal(n);
    assert digits[0] == Decimal(n)[0];
    if sign == "" {
      assert s == digits;
    } else {
      assert s[0] == sign[0] && s[1..] == digits;
    }
    SpacesSkipped(spaces, s);
  }

  // ---- Printing ----

  function Head(cmd: char, subCmd: char, count: nat): string {
    "#" + [cmd] + "," + [subCmd] + "," + Decimal(count)
  }

  /** The first `n` fields, each behind a comma. */
  function Joined(fields: seq<CStr>, n: nat): string
    requires n <= |fields|
  {
    if n == 0 then "" else Joined(fields, n - 1) + "," + fields[n - 1]
  }

  function Printed(cmd: char, subCmd: char, fields: seq<CStr>): string {
    Head(cmd, subCmd, |fields|) + Joined(fields, |fields|) + ";"
  }

  /** The test in front of each field: with it, four more bytes have to fit. */
  predicate FieldFits(cmd: char, subCmd: char, fields: seq<CStr>, i: nat)
    requires i < |fields|
  {
    |Head(cmd, subCmd, |fields|)| + |Joined(fields, i)| + |fields[i]| + 4 < WU_STRLEN
  }

  // ---- Parsing ----

  function IndexOf(s: string, c: char): (p: Option<nat>)
    ensures p.Some? ==> p.value < |s| && s[p.value] == c && c !in s[..p.value]
    ensures p.None? ==> c !in s
  {
    if s == [] then None
    else if s[0] == c then Some(0)
    else
      var rest := IndexOf(s[1..], c);
      if rest.None? then None else Some(rest.value + 1)
  }

  predicate IsSeparator(c: char) {
    c == ',' || c == ';'
  }

  function IndexOfSeparator(s: string): (p: Option<nat>)
    ensures p.Some? ==> p.value < |s| && IsSeparator(s[p.value])
    ensures forall i :: 0 <= i < (if p.Some? then p.value else |s|) ==> !IsSeparator(s[i])
  {
    if s == [] then None
    else if IsSeparator(s[0]) then Some(0)
    else
      var rest := IndexOfSeparator(s[1..]);
      if rest.None? then None else Some(rest.value + 1)
  }

  /** The fields of the rest of a packet; only the last may lack its separator. */
  function Fields(s: string, n: nat): Result<seq<string>, Errno>
    decreases n
  {
    if n == 0 then Ok([])
    else
      var p := IndexOfSeparator(s);
      if p.None? then (if n > 1 then Err(EFAULT) else Ok([SkipSpace(s)]))
      else
        var rest := Fields(s[p.value + 1..], n - 1);
        if rest.Err? then rest else Ok([SkipSpace(s[..p.value])] + rest.value)
  }

  datatype Parsed = Parsed(cmd: char, subCmd: char, count: nat, fields: seq<string>)

  /** The text behind the next comma, and the text before it. */
  function Cut(s: string): Option<(string, string)> {
    var p := IndexOf(s, ',');
    if p.None? then None else Some((s[..p.value], s[p.value + 1..]))
  }

  function FirstOr(s: string, c: char): char {
    if s == [] then c else s[0]
  }

  /** What parse_packet makes of the text in the buffer. */
  function Parse(text: string): Result<Parsed, Errno> {
    var start := IndexOf(text, '#');
    if start.None? then Err(EFAULT)
    else
      var cmd := Cut(text[start.value + 1..]);
      if cmd.None? then Err(EFAULT)
      else
        var sub := Cut(cmd.value.1);
        if sub.None? then Err(EFAULT)
        else
          var num := Cut(sub.value.1);
          if num.None? then Err(EFAULT)
          else
            var count := Atoi(num.value.0) % Words.UINT32;
            var fields := Fields(num.value.1, count);
            if fields.Err? then Err(fields.error)
            else Ok(Parsed(FirstOr(cmd.value.0, ','), FirstOr(sub.value.0, ','), count, fields.value))
  }

  // ---- Printing and parsing undo each other ----

  /** A field that survives the round trip. */
  predicate Clean(field: string) {
    && (forall i :: 0 <= i < |field| ==> field[i] != ',' && field[i] != ';')
    && (field != [] ==> field[0] as int !in {0x20, 0x09, 0x0A, 0x0B, 0x0C, 0x0D})
  }

  lemma SeparatorsAre(c: char)
    ensures IsSeparator(c) <==> c == ',' || c == ';'
  {
  }

  lemma SkippedIsClean(s: string)
    requires forall i :: 0 <= i < |s| ==> !IsSeparator(s[i])
    ensures Clean(SkipSpace(s))
  {
    hide SkipSpace, IsSeparator;
    SkipSpaceSkips(s);
    var r := SkipSpace(s);
    forall i | 0 <= i < |r| ensures r[i] != ',' && r[i] != ';' {
      assert r[i] == s[|s| - |r| + i];
      SeparatorsAre(r[i]);
    }
    if r != [] { SpaceCodes(r[0]); }
  }

  lemma {:induction false} ParsedFieldsAreClean(s: string, n: nat)
    ensures var r := Fields(s, n); r.Ok? ==> |r.value| == n && forall i :: 0 <= i < n ==> Clean(r.value[i])
    decreases n
  {
    hide SkipSpace, Clean, IsSeparator, IndexOfSeparator;
    if n == 0 {
    } else {
      var p := IndexOfSeparator(s);
      if p.Some? {
        SkippedIsClean(s[..p.value]);
        ParsedFieldsAreClean(s[p.value + 1..], n - 1);
      } else {
        SkippedIsClean(s);
      }
    }
  }

  lemma CleanIsKept(field: string)
    requires Clean(field)
    ensures SkipSpace(field) == field
  {
    if field != [] { SpaceCodes(field[0]); }
  }

  lemma {:induction false} SeparatorAfter(a: string, c: char, b: string)
    requires IsSeparator(c) && forall i :: 0 <= i < |a| ==> !IsSeparator(a[i])
    ensures IndexOfSeparator(a + [c] + b) == Some(|a|)
    decreases a
  {
    if a == [] {
      assert (a + [c] + b)[0] == c;
    } else {
      assert (a + [c] + b)[1..] == a[1..] + [c] + b;
      SeparatorAfter(a[1..], c, b);
    }
  }

  /** The fields from the `i`-th on, each followed by a separator. */
  function Tail(fields: seq<CStr>, end: string): string {
    if fields == [] then ""
    else if |fields| == 1 then fields[0] + end
    else fields[0] + "," + Tail(fields[1..], end)
  }

  lemma OneField(field: CStr, end: string)
    requires Clean(field) && end in {"", ";"}
    ensures Fields(field + end, 1) == Ok([field])
  {
    CleanIsKept(field);
    if end == ";" {
      assert field + end == field + [';'] + "";
      SeparatorAfter(field, ';', "");
      assert (field + end)[..|field|] == field;
      assert Fields((field + end)[|field| + 1..], 0) == Ok([]);
      assert [field] + [] == [field];
    } else {
      assert field + end == field;
    }
  }

  lemma FirstField(field: CStr, rest: string, n: nat)
    requires Clean(field) && n > 0
    ensures Fields(field + "," + rest, n) ==
            var r := Fields(rest, n - 1);
            if r.Err? then r else Ok([field] + r.value)
  {
    var s := field + "," + rest;
    CleanIsKept(field);
    SeparatorAfter(field, ',', rest);
    assert s[..|field|] == field && s[|field| + 1..] == rest;
  }

  lemma {:induction false} TailParses(fields: seq<CStr>, end: string)
    requires (forall i :: 0 <= i < |fields| ==> Clean(fields[i])) && end in {"", ";"}
    ensures Fields(Tail(fields, end), |fields|) == Ok(fields)
    decreases fields
  {
    hide Clean, Fields;
    if fields == [] {
      NoFields();
    } else if |fields| == 1 {
      OneField(fields[0], end);
      assert fields == [fields[0]];
    } else {
      FirstField(fields[0], Tail(fields[1..], end), |fields|);
      TailParses(fields[1..], end);
      assert fields == [fields[0]] + fields[1..];
    }
  }

  lemma NoFields()
    ensures Fields("", 0) == Ok([])
  {
  }

  lemma {:induction false} IndexAfter(a: string, c: char, b: string)
    requires c !in a
    ensures IndexOf(a + [c] + b, c) == Some(|a|)
    decreases a
  {
    if a == [] {
      assert (a + [c] + b)[0] == c;
    } else {
      assert (a + [c] + b)[1..] == a[1..] + [c] + b;
      IndexAfter(a[1..], c, b);
    }
  }

  lemma CutAfter(a: string, b: string)
    requires ',' !in a
    ensures Cut(a + "," + b) == Some((a, b))
  {
    IndexAfter(a, ',', b);
    assert (a + "," + b)[..|a|] == a && (a + "," + b)[|a| + 1..] == b;
  }

  lemma {:induction false} JoinedIsTail(fields: seq<CStr>, end: string)
    requires fields != []
    ensures Joined(fields, |fields|) + end == "," + Tail(fields, end)
    decreases fields
  {
    JoinedFront(fields, |fields|);
    if |fields| == 1 {
      assert Joined(fields[1..], 0) == "";
      assert "," + fields[0] + "" + end == "," + (fields[0] + end);
    } else {
      var rest := Joined(fields[1..], |fields| - 1);
      JoinedIsTail(fields[1..], end);
      assert "," + fields[0] + rest + end == "," + fields[0] + (rest + end);
      assert "," + fields[0] + ("," + Tail(fields[1..], end)) == "," + (fields[0] + "," + Tail(fields[1..], end));
    }
  }

  lemma {:induction false} JoinedFront(fields: seq<CStr>, n: nat)
    requires 0 < n <= |fields|
    ensures Joined(fields, n) == "," + fields[0] + Joined(fields[1..], n - 1)
    decreases n
  {
    if n == 1 {
    } else {
      JoinedFront(fields, n - 1);
    }
  }

  lemma PacketShape(prefix: string, cmd: char, subCmd: char, num: string, joined: string, end: string, tail: string)
    requires joined + end == "," + tail
    ensures prefix + ("#" + [cmd] + "," + [subCmd] + "," + num) + joined + end
         == prefix + ['#'] + ([cmd] + "," + ([subCmd] + "," + (num + "," + tail)))
  {
    var head := "#" + [cmd] + "," + [subCmd] + "," + num;
    assert prefix + head + joined + end == prefix + head + (joined + end);
    assert head + ("," + tail) == ['#'] + ([cmd] + "," + ([subCmd] + "," + (num + "," + tail)));
    assert prefix + head + ("," + tail) == prefix + (head + ("," + tail));
  }

  lemma ParseHead(prefix: string, cmd: char, subCmd: char, num: string, tail: string)
    requires '#' !in prefix && cmd != ',' && subCmd != ',' && ',' !in num
    ensures Parse(prefix + ['#'] + ([cmd] + "," + ([subCmd] + "," + (num + "," + tail)))) ==
            var count := Atoi(num) % Words.UINT32;
            var fields := Fields(tail, count);
            if fields.Err? then Err(fields.error) else Ok(Parsed(cmd, subCmd, count, fields.value))
  {
    hide Fields, Atoi, Cut, IndexOf;
    var t3 := num + "," + tail;
    var t2 := [subCmd] + "," + t3;
    var t1 := [cmd] + "," + t2;
    var text := prefix + ['#'] + t1;
    IndexAfter(prefix, '#', t1);
    assert text[|prefix| + 1..] == t1;
    CutAfter([cmd], t2);
    CutAfter([subCmd], t3);
    CutAfter(num, tail);
  }

  /**
    Whatever precedes the packet, and with or without the final semicolon: what the parser
    accepts has the command, the subcommand and the number of fields, and it gives back
    the fields if and only if there are some and every one of them is clean.
   */
  lemma RoundTrip(prefix: string, cmd: char, subCmd: char, fields: seq<CStr>, end: string)
    requires '#' !in prefix && cmd != ',' && subCmd != ','
    requires |fields| < Words.UINT32 && end in {"", ";"}
    ensures var parsed := Parse(prefix + Head(cmd, subCmd, |fields|) + Joined(fields, |fields|) + end);
            && (parsed.Ok? ==> parsed.value == Parsed(cmd, subCmd, |fields|, parsed.value.fields))
            && ((parsed.Ok? && parsed.value.fields == fields) <==> Recoverable(fields))
  {
    if fields == [] {
      NoFieldsAreRefused(prefix, cmd, subCmd, end);
      assert prefix + Head(cmd, subCmd, 0) + "" + end == prefix + Head(cmd, subCmd, 0) + end;
    } else {
      SomeFieldsRoundTrip(prefix, cmd, subCmd, fields, end);
    }
  }

  predicate Recoverable(fields: seq<CStr>) {
    fields != [] && forall i :: 0 <= i < |fields| ==> Clean(fields[i])
  }

  /** A packet without fields ends at its count, where the parser wants another comma. */
  lemma NoFieldsAreRefused(prefix: string, cmd: char, subCmd: char, end: string)
    requires '#' !in prefix && cmd != ',' && subCmd != ',' && end in {"", ";"}
    ensures Parse(prefix + Head(cmd, subCmd, 0) + end) == Err(EFAULT)
  {
    hide Cut, IndexOf, Fields, Atoi;
    var t3 := Decimal(0) + end;
    var t2 := [subCmd] + "," + t3;
    var t1 := [cmd] + "," + t2;
    var text := prefix + Head(cmd, subCmd, 0) + end;
    assert text == prefix + ['#'] + t1;
    IndexAfter(prefix, '#', t1);
    assert text[|prefix| + 1..] == t1;
    CutAfter([cmd], t2);
    CutAfter([subCmd], t3);
    NoComma(t3);
  }

  lemma NoComma(s: string)
    requires ',' !in s
    ensures Cut(s).None?
  {
  }

  lemma SomeFieldsRoundTrip(prefix: string, cmd: char, subCmd: char, fields: seq<CStr>, end: string)
    requires '#' !in prefix && cmd != ',' && subCmd != ','
    requires 0 < |fields| < Words.UINT32 && end in {"", ";"}
    ensures var parsed := Parse(prefix + Head(cmd, subCmd, |fields|) + Joined(fields, |fields|) + end);
            && (parsed.Ok? ==> parsed.value == Parsed(cmd, subCmd, |fields|, parsed.value.fields))
            && ((parsed.Ok? && parsed.value.fields == fields) <==> Recoverable(fields))
  {
    hide Fields, Atoi, Decimal, Clean, Joined, Parse, Tail, Head;
    var n, tail := |fields|, Tail(fields, end);
    PacketParses(prefix, cmd, subCmd, fields, end);
    ParsedFieldsAreClean(tail, n);
    if forall i :: 0 <= i < n ==> Clean(fields[i]) { TailParses(fields, end); }
  }

  lemma PacketParses(prefix: string, cmd: char, subCmd: char, fields: seq<CStr>, end: string)
    requires '#' !in prefix && cmd != ',' && subCmd != ',' && 0 < |fields| < Words.UINT32
    ensures Parse(prefix + Head(cmd, subCmd, |fields|) + Joined(fields, |fields|) + end) ==
            var r := Fields(Tail(fields, end), |fields|);
            if r.Err? then Err(r.error) else Ok(Parsed(cmd, subCmd, |fields|, r.value))
  {
    hide Fields, Atoi, Decimal, Joined, Parse, Tail;
    var n, num, tail := |fields|, Decimal(|fields|), Tail(fields, end);
    JoinedIsTail(fields, end);
    PacketShape(prefix, cmd, subCmd, num, Joined(fields, n), end, tail);
    ParseHead(prefix, cmd, subCmd, num, tail);
    AtoiOfDecimal(n);
  }

  // ---- Strings in memory ----

  /** The C string at an address: up to the next NUL. */
  function StrAt(mem: seq<char>, at: nat): string
    decreases |mem| - at
  {
    if at >= |mem| || mem[at] == NUL then "" else [mem[at]] + StrAt(mem, at + 1)
  }

  /** Byte `i` of `s` is in memory behind `at`, and it is not NUL. */
  predicate HoldsChar(mem: seq<char>, at: nat, s: string, i: nat) {
    i < |s| && at + i < |mem| && s[i] == mem[at + i] && s[i] != NUL
  }

  predicate HoldsText(mem: seq<char>, at: nat, s: string) {
    forall i :: 0 <= i < |s| ==> HoldsChar(mem, at, s, i)
  }

  lemma TextBefore(mem: seq<char>, at: nat, rest: string)
    requires at < |mem| && mem[at] != NUL && HoldsText(mem, at + 1, rest)
    ensures HoldsText(mem, at, [mem[at]] + rest)
  {
    var s := [mem[at]] + rest;
    forall i: nat | i < |s| ensures HoldsChar(mem, at, s, i) {
      if i > 0 { assert HoldsChar(mem, at + 1, rest, i - 1); }
    }
  }

  lemma {:induction false} StrBytes(mem: seq<char>, at: nat)
    ensures var s := StrAt(mem, at);
            && at + |s| <= (if at <= |mem| then |mem| else at)
            && HoldsText(mem, at, s)
            && (at + |s| < |mem| ==> mem[at + |s|] == NUL)
    decreases |mem| - at
  {
    if at >= |mem| || mem[at] == NUL {
    } else {
      hide HoldsText;
      StrBytes(mem, at + 1);
      TextBefore(mem, at, StrAt(mem, at + 1));
    }
  }

  lemma {:induction false} StrSuffix(mem: seq<char>, at: nat, k: nat)
    requires k <= |StrAt(mem, at)|
    ensures StrAt(mem, at + k) == StrAt(mem, at)[k..]
    decreases k
  {
    if k == 0 {
    } else {
      StrSuffix(mem, at + 1, k - 1);
    }
  }

  /** Writing a NUL into a string cuts it there. */
  lemma {:induction false} StrCut(mem: seq<char>, at: nat, p: nat)
    requires p < |StrAt(mem, at)| && at + p < |mem|
    ensures StrAt(mem[at + p := NUL], at) == StrAt(mem, at)[..p]
    decreases p
  {
    if p == 0 {
    } else {
      StrCut(mem, at + 1, p - 1);
    }
  }

  /** Writing a NUL elsewhere leaves a string alone. */
  lemma {:induction false} StrUntouched(mem: seq<char>, at: nat, q: nat)
    requires q < |mem| && (q < at || at + |StrAt(mem, at)| < q)
    ensures StrAt(mem[q := NUL], at) == StrAt(mem, at)
    decreases |mem| - at
  {
    if at >= |mem| || mem[at] == NUL {
    } else {
      StrUntouched(mem, at + 1, q);
    }
  }

  /** The source's strchr and strpbrk, by address. */
  function StrChr(mem: seq<char>, at: nat, c: char): Option<nat> {
    match IndexOf(StrAt(mem, at), c) case None => None case Some(p) => Some(at + p)
  }

  function StrSeparator(mem: seq<char>, at: nat): Option<nat> {
    match IndexOfSeparator(StrAt(mem, at)) case None => None case Some(p) => Some(at + p)
  }

  /** The head of a packet and the rest of it, by address. */
  function ParseMem(mem: seq<char>): Result<Parsed, Errno> {
    match StrChr(mem, 0, '#') {
      case None => Err(EFAULT)
      case Some(hash) =>
        match StrChr(mem, hash + 1, ',') {
          case None => Err(EFAULT)
          case Some(c1) =>
            match StrChr(mem, c1 + 1, ',') {
              case None => Err(EFAULT)
              case Some(c2) =>
                match StrChr(mem, c2 + 1, ',') {
                  case None => Err(EFAULT)
                  case Some(c3) =>
                    CommaInMemory(mem, hash + 1);
                    CommaInMemory(mem, c1 + 1);
                    CommaInMemory(mem, c2 + 1);
                    var count := Atoi(StrAt(mem, c2 + 1)[..c3 - (c2 + 1)]) % Words.UINT32;
                    var fields := Fields(StrAt(mem, c3 + 1), count);
                    if fields.Err? then Err(fields.error)
                    else Ok(Parsed(mem[hash + 1], mem[c1 + 1], count, fields.value))
                }
            }
        }
    }
  }

  lemma CommaInMemory(mem: seq<char>, at: nat)
    ensures var c := StrChr(mem, at, ',');
            c.Some? ==> at <= c.value < |mem| && c.value - at < |StrAt(mem, at)|
    ensures Cut(StrAt(mem, at)) == match StrChr(mem, at, ',')
                                   case None => None
                                   case Some(c) => Some((StrAt(mem, at)[..c - at], StrAt(mem, c + 1)))
    ensures StrChr(mem, at, ',').Some? ==> FirstOr(Cut(StrAt(mem, at)).value.0, ',') == mem[at]
  {
    var p := IndexOf(StrAt(mem, at), ',');
    hide IndexOf, StrAt;
    StrBytes(mem, at);
    if p.Some? {
      StrSuffix(mem, at, p.value + 1);
      assert HoldsChar(mem, at, StrAt(mem, at), 0) && HoldsChar(mem, at, StrAt(mem, at), p.value);
    }
  }

  lemma ParseMemIs(mem: seq<char>)
    ensures Parse(StrAt(mem, 0)) == ParseMem(mem)
  {
    hide StrAt, Cut, IndexOf, Fields, Atoi, FirstOr;
    var hash := IndexOf(StrAt(mem, 0), '#');
    if hash.Some? {
      HashInText(StrAt(mem, 0));
      StrSuffix(mem, 0, hash.value + 1);
      CommaInMemory(mem, hash.value + 1);
      var c1 := StrChr(mem, hash.value + 1, ',');
      if c1.Some? {
        CommaInMemory(mem, c1.value + 1);
        var c2 := StrChr(mem, c1.value + 1, ',');
        if c2.Some? { CommaInMemory(mem, c2.value + 1); }
      }
    }
  }

  /** The addresses that the parser finds, one after the other. */
  lemma ParseMemSteps(mem: seq<char>, hash: Option<nat>, c1: Option<nat>, c2: Option<nat>, c3: Option<nat>)
    requires hash == StrChr(mem, 0, '#')
    requires c1 == if hash.Some? then StrChr(mem, hash.value + 1, ',') else None
    requires c2 == if c1.Some? then StrChr(mem, c1.value + 1, ',') else None
    requires c3 == if c2.Some? then StrChr(mem, c2.value + 1, ',') else None
    ensures c3.None? ==> ParseMem(mem) == Err(EFAULT)
    ensures c3.Some? ==>
              && hash.Some? && hash.value + 1 < |mem| && c1.Some? && c1.value + 1 < |mem|
              && c2.Some? && c2.value + 1 <= c3.value < |mem|
              && c3.value - (c2.value + 1) < |StrAt(mem, c2.value + 1)|
              && ParseMem(mem) ==
                   var count := Atoi(StrAt(mem, c2.value + 1)[..c3.value - (c2.value + 1)]) % Words.UINT32;
                   var fields := Fields(StrAt(mem, c3.value + 1), count);
                   if fields.Err? then Err(fields.error)
                   else Ok(Parsed(mem[hash.value + 1], mem[c1.value + 1], count, fields.value))
  {
    hide Atoi, Fields, StrAt, StrChr, Cut, FirstOr;
    if c3.Some? {
      CommaInMemory(mem, hash.value + 1);
      CommaInMemory(mem, c1.value + 1);
      CommaInMemory(mem, c2.value + 1);
    }
  }

  lemma HashInText(s: string)
    ensures var p := IndexOf(s, '#'); p.Some? ==> p.value < |s|
  {
  }

  /** The pointers in `field` read as `done`, and end before `limit`. */
  predicate Stored(mem: seq<char>, field: seq<nat>, done: seq<string>, limit: nat) {
    && |field| == |done|
    && forall j :: 0 <= j < |field| ==> StrAt(mem, field[j]) == done[j] && field[j] + |done[j]| < limit
  }

  lemma StoredUntouched(mem: seq<char>, field: seq<nat>, done: seq<string>, limit: nat, q: nat)
    requires Stored(mem, field, done, limit) && limit <= q < |mem|
    ensures Stored(mem[q := NUL], field, done, limit)
  {
    hide StrAt;
    forall j | 0 <= j < |field| ensures StrAt(mem[q := NUL], field[j]) == done[j] { StrUntouched(mem, field[j], q); }
  }

  lemma SeparatorInMemory(mem: seq<char>, at: nat)
    ensures match StrSeparator(mem, at)
            case None => IndexOfSeparator(StrAt(mem, at)).None?
            case Some(c) =>
              && at <= c < |mem| && c - at < |StrAt(mem, at)|
              && IndexOfSeparator(StrAt(mem, at)) == Some(c - at)
              && StrAt(mem, c + 1) == StrAt(mem, at)[c + 1 - at..]
  {
    var p := IndexOfSeparator(StrAt(mem, at));
    hide IndexOfSeparator, StrAt;
    StrBytes(mem, at);
    if p.Some? { StrSuffix(mem, at, p.value + 1); }
  }

  lemma SkipStep(mem: seq<char>, s: nat)
    requires s <= |mem|
    ensures if s < |mem| && IsSpace(mem[s])
            then SkipSpace(StrAt(mem, s)) == SkipSpace(StrAt(mem, s + 1)) && |StrAt(mem, s)| == 1 + |StrAt(mem, s + 1)|
            else SkipSpace(StrAt(mem, s)) == StrAt(mem, s)
  {
    if s < |mem| && IsSpace(mem[s]) {
      assert StrAt(mem, s) == [mem[s]] + StrAt(mem, s + 1);
      assert StrAt(mem, s)[1..] == StrAt(mem, s + 1);
    }
  }

  lemma GlueAgain(done: seq<string>, piece: string, rest: Result<seq<string>, Errno>)
    ensures Glue(done, Glue([piece], rest)) == Glue(done + [piece], rest)
  {
    if rest.Ok? { assert done + ([piece] + rest.value) == done + [piece] + rest.value; }
  }

  /** The fields of a text, one at a time. */
  lemma FieldsStep(s: string, n: nat)
    ensures n == 0 ==> Fields(s, n) == Ok([])
    ensures n > 0 ==>
              match IndexOfSeparator(s)
              case None => Fields(s, n) == if n > 1 then Err(EFAULT) else Ok([SkipSpace(s)])
              case Some(p) => p < |s| && Fields(s, n) == Glue([SkipSpace(s[..p])], Fields(s[p + 1..], n - 1))
  {
  }

  function Glue(done: seq<string>, rest: Result<seq<string>, Errno>): Result<seq<string>, Errno> {
    if rest.Err? then rest else Ok(done + rest.value)
  }

  lemma FitsIs(cmd: char, subCmd: char, fields: seq<CStr>, i: nat)
    requires i < |fields|
    ensures FieldFits(cmd, subCmd, fields, i)
       <==> |Head(cmd, subCmd, |fields|)| + |Joined(fields, i)| + |fields[i]| + 4 < WU_STRLEN
  {
  }

  /** All fields fit exactly if the whole packet has at most 253 bytes: of the 256, three stay unused. */
  lemma AllFitIff(cmd: char, subCmd: char, fields: seq<CStr>)
    ensures (forall i :: 0 <= i < |fields| ==> FieldFits(cmd, subCmd, fields, i))
       <==> fields == [] || |Printed(cmd, subCmd, fields)| <= 253
  {
    hide Head, FieldFits;
    if fields != [] {
      var n := |fields|;
      FitsIs(cmd, subCmd, fields, n - 1);
      assert |Joined(fields, n)| == |Joined(fields, n - 1)| + 1 + |fields[n - 1]|;
      if |Printed(cmd, subCmd, fields)| <= 253 {
        forall i | 0 <= i < n ensures FieldFits(cmd, subCmd, fields, i) {
          FitsIs(cmd, subCmd, fields, i);
          JoinedGrows(fields, i, n);
        }
      }
    }
  }

  lemma {:induction false} JoinedGrows(fields: seq<CStr>, i: nat, n: nat)
    requires i < n <= |fields|
    ensures |Joined(fields, i)| + 1 + |fields[i]| <= |Joined(fields, n)|
    decreases n
  {
    if n == i + 1 {
    } else {
      JoinedGrows(fields, i, n - 1);
    }
  }

  lemma NothingJoined(fields: seq<CStr>)
    ensures Joined(fields, 0) == ""
  {
  }

  lemma JoinedNext(head: string, fields: seq<CStr>, i: nat)
    requires i < |fields|
    ensures head + Joined(fields, i) + ("," + fields[i]) == head + Joined(fields, i + 1)
  {
    assert Joined(fields, i + 1) == Joined(fields, i) + "," + fields[i];
  }

  class WuPacket {
    var cmd: char
    var subCmd: char
    var count: nat
    const buf: array<char>
    var len: nat
    var field: seq<nat>

    ghost predicate Valid()
      reads this
    {
      buf.Length == WU_STRLEN && len <= WU_STRLEN
    }

    constructor (cmd: char, subCmd: char, count: nat)
      ensures Valid() && fresh(buf)
      ensures this.cmd == cmd && this.subCmd == subCmd && this.count == count
    {
      this.cmd, this.subCmd, this.count, this.len, this.field := cmd, subCmd, count, 0, [];
      this.buf := new char[WU_STRLEN](_ => NUL);
    }

    /** Prints the packet; it is refused if and only if some field does not fit. */
    method WuWrite(fields: seq<CStr>) returns (r: Result<string, Errno>)
      requires Valid() && count == |fields| <= 18
      modifies this`len, buf
      ensures Valid()
      ensures r.Ok? <==> forall i :: 0 <= i < |fields| ==> FieldFits(cmd, subCmd, fields, i)
      ensures r.Ok? <==> fields == [] || |Printed(cmd, subCmd, fields)| <= 253
      ensures r == (if r.Ok? then Ok(Printed(cmd, subCmd, fields)) else Err(EOVERFLOW))
      ensures r.Ok? ==> buf[..len] == r.value
    {
      hide Decimal, Head, Joined, FieldFits;
      AllFitIff(cmd, subCmd, fields);
      forall k | 0 <= k < buf.Length {
        buf[k] := NUL;
      }
      var head := Head(cmd, subCmd, count);
      ShortHead(cmd, subCmd, count);
      Put(head, 0);
      len := |head|;
      NothingJoined(fields);
      var i := 0;
      while i < count
        invariant 0 <= i <= count && Valid()
        invariant len == |head| + |Joined(fields, i)| && len + 3 < WU_STRLEN
        invariant buf[..len] == head + Joined(fields, i)
        invariant forall j :: 0 <= j < i ==> FieldFits(cmd, subCmd, fields, j)
      {
        FitsIs(cmd, subCmd, fields, i);
        if len + |fields[i]| + 4 >= WU_STRLEN {
          assert !FieldFits(cmd, subCmd, fields, i);
          return Err(EOVERFLOW);
        }
        var piece := "," + fields[i];
        Put(piece, len);
        len := len + |piece|;
        JoinedNext(head, fields, i);
        i := i + 1;
      }
      Put(";", len);
      len := len + 1;
      r := Ok(buf[..len]);
    }

    /** Copies a string into the buffer. */
    method Put(s: string, at: nat)
      requires buf.Length == WU_STRLEN && at + |s| <= WU_STRLEN
      modifies buf
      ensures buf[..at + |s|] == old(buf[..at]) + s
    {
      forall k | 0 <= k < |s| {
        buf[at + k] := s[k];
      }
    }

    /**
      Cuts the buffer up in place.  The outcome is the parse of the text in the buffer,
      and afterwards every field pointer reads as the parsed field.
     */
    method ParsePacket() returns (r: Result<(), Errno>)
      requires Valid() && len < WU_STRLEN
      modifies this, buf
      ensures Valid()
      ensures var parsed := Parse(StrAt(old(buf[..])[old(len) := NUL], 0));
              && r == (if parsed.Ok? then Ok(()) else Err(EFAULT))
              && (parsed.Ok? ==>
                    && Parsed(cmd, subCmd, count, parsed.value.fields) == parsed.value
                    && |field| == |parsed.value.fields|
                    && forall i :: 0 <= i < |field| ==> StrAt(buf[..], field[i]) == parsed.value.fields[i])
    {
      hide Parse, ParseMem, Atoi, Fields, StrAt, StrChr, Cut, FirstOr;
      buf[len] := NUL;
      var mem := buf[..];
      assert mem == old(buf[..])[old(len) := NUL];
      ParseMemIs(mem);
      var hash := StrChr(mem, 0, '#');
      if hash.None? {
        ParseMemSteps(mem, None, None, None, None);
        return Err(EFAULT);
      }
      var at := hash.value + 1;
      var c1 := StrChr(mem, at, ',');
      if c1.None? {
        ParseMemSteps(mem, hash, None, None, None);
        return Err(EFAULT);
      }
      CommaInMemory(mem, at);
      cmd := mem[at];
      at := c1.value + 1;
      var c2 := StrChr(mem, at, ',');
      if c2.None? {
        ParseMemSteps(mem, hash, c1, None, None);
        return Err(EFAULT);
      }
      CommaInMemory(mem, at);
      subCmd := mem[at];
      at := c2.value + 1;
      var c3 := StrChr(mem, at, ',');
      ParseMemSteps(mem, hash, c1, c2, c3);
      if c3.None? {
        return Err(EFAULT);
      }
      StrCut(mem, at, c3.value - at);
      StrUntouched(mem, c3.value + 1, c3.value);
      buf[c3.value] := NUL;
      assert buf[..] == mem[c3.value := NUL];
      count := Atoi(StrAt(buf[..], at)) % Words.UINT32;
      r := SplitFields(c3.value + 1);
    }

    /** Moves a pointer over leading white space. */
    method SkipLeading(ghost mem: seq<char>, start: nat) returns (s: nat)
      requires Valid() && start <= WU_STRLEN && mem == buf[..]
      ensures StrAt(mem, s) == SkipSpace(StrAt(mem, start))
      ensures s + |StrAt(mem, s)| == start + |StrAt(mem, start)|
    {
      hide StrAt, SkipSpace, IsSpace;
      s := start;
      while s < buf.Length && IsSpace(buf[s])
        invariant s <= buf.Length
        invariant SkipSpace(StrAt(mem, s)) == SkipSpace(StrAt(mem, start))
        invariant s + |StrAt(mem, s)| == start + |StrAt(mem, start)|
      {
        assert buf[s] == mem[s];
        SkipStep(mem, s);
        s := s + 1;
      }
      assert s < buf.Length ==> buf[s] == mem[s];
      SkipStep(mem, s);
    }

    /** Cuts the buffer at the next separator. */
    method CutField(s: nat) returns (next: Option<nat>)
      requires Valid() && s <= WU_STRLEN
      modifies buf
      ensures next == StrSeparator(old(buf[..]), s)
      ensures next.None? ==> buf[..] == old(buf[..])
      ensures next.Some? ==> next.value < WU_STRLEN && buf[..] == old(buf[..])[next.value := NUL]
    {
      next := StrSeparator(buf[..], s);
      SeparatorInMemory(buf[..], s);
      if next.Some? {
        buf[next.value] := NUL;
      }
    }

    method SplitFields(start: nat) returns (r: Result<(), Errno>)
      requires Valid() && start <= WU_STRLEN
      modifies this`field, buf
      ensures Valid()
      ensures var parsed := Fields(old(StrAt(buf[..], start)), count);
              && r == (if parsed.Ok? then Ok(()) else Err(EFAULT))
              && (parsed.Ok? ==>
                    && |field| == |parsed.value|
                    && forall i :: 0 <= i < |field| ==> StrAt(buf[..], field[i]) == parsed.value[i])
    {
      hide StrAt, Fields, SkipSpace, StrSeparator, IsSpace, Stored, Glue;
      ghost var mem := buf[..];
      ghost var all := Fields(StrAt(mem, start), count);
      ghost var done: seq<string> := [];
      field := [];
      Beginning(mem, start, count);
      var s: nat := start;
      var i := 0;
      while i < count
        invariant 0 <= i <= count && Valid() && s <= WU_STRLEN + 1
        invariant buf[..] == mem && |done| == i
        invariant i < count ==> s <= WU_STRLEN && all == Glue(done, Fields(StrAt(mem, s), count - i))
        invariant i == count ==> all == Ok(done)
        invariant Stored(mem, field, done, s)
      {
        ghost var before := mem;
        var next := CutField(s);
        mem := buf[..];
        var after := WU_STRLEN + 1;
        if next.Some? {
          after := next.value + 1;
        } else if i + 1 < count {
          NoSeparator(before, s, count - i, done);
          return Err(EFAULT);
        }
        var pointer := SkipLeading(mem, s);
        ghost var piece := StrAt(mem, pointer);
        if next.Some? {
          FieldCut(before, mem, field, done, s, next.value, pointer, count - i);
        } else {
          LastField(mem, field, done, s, pointer);
        }
        done := done + [piece];
        field := field + [pointer];
        s := after;
        i := i + 1;
      }
      ghost var parsed := all.value;
      ReadBack(mem, field, done, s);
      r := Ok(());
    }
  }

  lemma Beginning(mem: seq<char>, start: nat, count: nat)
    ensures var all := Fields(StrAt(mem, start), count);
            && all == Glue([], all)
            && (count == 0 ==> all == Ok([]))
            && Stored(mem, [], [], start)
  {
    FieldsStep(StrAt(mem, start), count);
    hide Fields, StrAt;
    var all := Fields(StrAt(mem, start), count);
    if all.Ok? { assert [] + all.value == all.value; }
  }

  lemma ReadBack(mem: seq<char>, field: seq<nat>, done: seq<string>, limit: nat)
    requires Stored(mem, field, done, limit)
    ensures |field| == |done| && forall i :: 0 <= i < |field| ==> StrAt(mem, field[i]) == done[i]
  {
    hide StrAt;
  }

  lemma NoSeparator(mem: seq<char>, s: nat, n: nat, done: seq<string>)
    requires StrSeparator(mem, s).None? && n > 1
    ensures Glue(done, Fields(StrAt(mem, s), n)) == Err(EFAULT)
  {
    SeparatorInMemory(mem, s);
    FieldsStep(StrAt(mem, s), n);
    hide Fields, StrAt, IndexOfSeparator;
  }

  lemma CutFacts(before: seq<char>, s: nat, c: nat)
    requires StrSeparator(before, s) == Some(c) && c < |before|
    ensures var mem := before[c := NUL];
            && IndexOfSeparator(StrAt(before, s)) == Some(c - s) && s <= c && c - s < |StrAt(before, s)|
            && StrAt(mem, s) == StrAt(before, s)[..c - s]
            && StrAt(mem, c + 1) == StrAt(before, s)[c + 1 - s..]
  {
    SeparatorInMemory(before, s);
    hide StrAt, IndexOfSeparator, StrSeparator;
    StrCut(before, s, c - s);
    StrUntouched(before, c + 1, c);
  }

  /** One turn of the loop that finds a separator. */
  lemma FieldCut(before: seq<char>, mem: seq<char>, field: seq<nat>, done: seq<string>, s: nat, c: nat,
                 pointer: nat, n: nat)
    requires n > 0 && StrSeparator(before, s) == Some(c) && c < |before| && mem == before[c := NUL]
    requires Stored(before, field, done, s)
    requires StrAt(mem, pointer) == SkipSpace(StrAt(mem, s))
    requires pointer + |StrAt(mem, pointer)| == s + |StrAt(mem, s)|
    ensures var piece := StrAt(mem, pointer);
            && Stored(mem, field + [pointer], done + [piece], c + 1)
            && Glue(done, Fields(StrAt(before, s), n)) == Glue(done + [piece], Fields(StrAt(mem, c + 1), n - 1))
            && (n == 1 ==> Glue(done, Fields(StrAt(before, s), n)) == Ok(done + [piece]))
  {
    hide Fields, StrAt, IndexOfSeparator, SkipSpace, Stored, StrSeparator, Glue;
    CutFacts(before, s, c);
    StoredUntouched(before, field, done, s, c);
    StoredMore(mem, field, done, s, pointer, c + 1);
    TextCut(StrAt(before, s), c - s, done, n);
  }

  lemma TextCut(text: string, p: nat, done: seq<string>, n: nat)
    requires n > 0 && IndexOfSeparator(text) == Some(p) && p < |text|
    ensures var piece, rest := SkipSpace(text[..p]), text[p + 1..];
            && Glue(done, Fields(text, n)) == Glue(done + [piece], Fields(rest, n - 1))
            && (n == 1 ==> Glue(done, Fields(text, n)) == Ok(done + [piece]))
  {
    hide Fields, SkipSpace, IndexOfSeparator, Glue;
    var piece, rest := SkipSpace(text[..p]), text[p + 1..];
    FieldsStep(text, n);
    FieldsStep(rest, 0);
    GlueAgain(done, piece, Fields(rest, n - 1));
    GlueEnd(done + [piece]);
  }

  lemma GlueEnd(done: seq<string>)
    ensures Glue(done, Ok([])) == Ok(done)
  {
    assert done + [] == done;
  }

  lemma StoredMore(mem: seq<char>, field: seq<nat>, done: seq<string>, s: nat, pointer: nat, limit: nat)
    requires Stored(mem, field, done, s) && s <= limit && pointer + |StrAt(mem, pointer)| < limit
    ensures Stored(mem, field + [pointer], done + [StrAt(mem, pointer)], limit)
  {
    hide StrAt;
  }

  /** The last turn, when the final separator is missing. */
  lemma LastField(mem: seq<char>, field: seq<nat>, done: seq<string>, s: nat, pointer: nat)
    requires StrSeparator(mem, s).None? && s <= |mem|
    requires Stored(mem, field, done, s)
    requires StrAt(mem, pointer) == SkipSpace(StrAt(mem, s))
    requires pointer + |StrAt(mem, pointer)| == s + |StrAt(mem, s)|
    ensures var piece := StrAt(mem, pointer);
            && Stored(mem, field + [pointer], done + [piece], |mem| + 1)
            && Glue(done, Fields(StrAt(mem, s), 1)) == Ok(done + [piece])
  {
    hide Fields, StrAt, IndexOfSeparator, SkipSpace;
    SeparatorInMemory(mem, s);
    FieldsStep(StrAt(mem, s), 1);
    StrBytes(mem, s);
    StoredMore(mem, field, done, s, pointer, |mem| + 1);
  }

  lemma ShortHead(cmd: char, subCmd: char, count: nat)
    requires count <= 18
    ensures |Head(cmd, subCmd, count)| <= 7
  {
    if count >= 10 { assert Decimal(count) == Decimal(count / 10) + [Digit(count % 10)]; }
  }

  // ---- From buffer to buffer ----

  lemma {:induction false} StrOfText(mem: seq<char>, at: nat, text: string)
    requires at + |text| < |mem| && mem[at..at + |text|] == text && mem[at + |text|] == NUL && NUL !in text
    ensures StrAt(mem, at) == text
    decreases text
  {
    if text == [] {
    } else {
      assert mem[at] == text[0] && mem[at + 1..at + |text|] == text[1..];
      StrOfText(mem, at + 1, text[1..]);
    }
  }

  lemma {:induction false} JoinedHasNoNul(fields: seq<CStr>, n: nat)
    requires n <= |fields|
    ensures NUL !in Joined(fields, n)
    decreases n
  {
    if n == 0 {
    } else {
      JoinedHasNoNul(fields, n - 1);
      assert NUL !in fields[n - 1] && NUL !in ",";
    }
  }

  /**
    A printed packet that arrives in a receive buffer behind `prefix`, whole or with its
    last byte overwritten: parsing the buffer recovers it if and only if it has fields and
    all of them are clean.
   */
  lemma BufferRoundTrip(mem: seq<char>, len: nat, prefix: string, cmd: char, subCmd: char, fields: seq<CStr>,
                        lastLost: bool)
    requires '#' !in prefix && cmd != ',' && subCmd != ',' && |fields| < Words.UINT32
    requires NUL !in prefix && cmd != NUL && subCmd != NUL
    requires len == |prefix + Printed(cmd, subCmd, fields)| - (if lastLost then 1 else 0)
    requires len < |mem| && mem[..len] == (prefix + Printed(cmd, subCmd, fields))[..len]
    ensures var parsed := Parse(StrAt(mem[len := NUL], 0));
            && (parsed.Ok? ==> parsed.value == Parsed(cmd, subCmd, |fields|, parsed.value.fields))
            && ((parsed.Ok? && parsed.value.fields == fields) <==> Recoverable(fields))
  {
    hide Joined, Decimal, Parse, StrAt, Clean, Recoverable;
    var head, joined := Head(cmd, subCmd, |fields|), Joined(fields, |fields|);
    var end := if lastLost then "" else ";";
    var text := prefix + head + joined + end;
    assert prefix + Printed(cmd, subCmd, fields) == prefix + head + joined + ";";
    assert (prefix + Printed(cmd, subCmd, fields))[..len] == text;
    JoinedHasNoNul(fields, |fields|);
    assert NUL !in Decimal(|fields|);
    assert NUL !in head && NUL !in end;
    var cut := mem[len := NUL];
    assert cut[0..0 + |text|] == text;
    StrOfText(cut, 0, text);
    RoundTrip(prefix, cmd, subCmd, fields, end);
  }
}
