/** The conversion call as a program over the caller's buffers. */
module IconvRun {
  import opened Words
  import opened Utf8
  import opened Charsets
  import opened Iconv

  /** `a` with the bytes from `at` on replaced by `s`. */
  function Spliced(a: seq<byte>, at: nat, s: seq<byte>): (r: seq<byte>)
    requires at + |s| <= |a|
    ensures |r| == |a|
  {
    a[..at] + s + a[at + |s|..]
  }

  lemma SpliceTwice(a: seq<byte>, at: nat, s: seq<byte>, t: seq<byte>)
    requires at + |s| + |t| <= |a|
    ensures Spliced(Spliced(a, at, s), at + |s|, t) == Spliced(a, at, s + t)
  {
  }

  lemma SpliceNone(a: seq<byte>, at: nat)
    requires at <= |a|
    ensures Spliced(a, at, []) == a
  {
  }

  lemma SpliceNext(a: seq<byte>, at: nat, s: seq<byte>, i: nat)
    requires i < |s| && at + |s| <= |a|
    ensures Spliced(a, at, s[..i])[at + i := s[i]] == Spliced(a, at, s[..i + 1])
  {
  }

  /** utf8enc_wchar: as many bytes as the code needs. */
  method PutUtf8(out: array<byte>, at: nat, c: nat) returns (k: nat)
    requires at + |Enc(c)| <= out.Length
    modifies out
    ensures k == |Enc(c)| && out[..] == Spliced(old(out[..]), at, Enc(c))
  {
    hide Spliced;
    ghost var before, s := out[..], Enc(c);
    SpliceNone(before, at);
    SpliceNext(before, at, s, 0);
    if c <= 0x7F {
      out[at] := c;
      k := 1;
    } else if c <= 0x7FF {
      out[at] := 0xC0 + c / 64 % 32;
      SpliceNext(before, at, s, 1);
      out[at + 1] := 0x80 + c % 64;
      k := 2;
    } else if c <= 0xFFFF {
      out[at] := 0xE0 + c / 64 / 64 % 16;
      SpliceNext(before, at, s, 1);
      out[at + 1] := 0x80 + c / 64 % 64;
      SpliceNext(before, at, s, 2);
      out[at + 2] := 0x80 + c % 64;
      k := 3;
    } else if c <= 0x10_FFFF {
      out[at] := 0xF0 + c / 64 / 64 / 64 % 8;
      SpliceNext(before, at, s, 1);
      out[at + 1] := 0x80 + c / 64 / 64 % 64;
      SpliceNext(before, at, s, 2);
      out[at + 2] := 0x80 + c / 64 % 64;
      SpliceNext(before, at, s, 3);
      out[at + 3] := 0x80 + c % 64;
      k := 4;
    } else {
      out[at] := 0x3F;
      k := 1;
    }
    assert s[..k] == s;
  }

  /** put_16: the two bytes at the places that the byte order gives them. */
  method PutUnit(out: array<byte>, at: nat, c: nat, little: bool)
    requires at + 2 <= out.Length
    modifies out
    ensures out[..] == Spliced(old(out[..]), at, Put16(c, little))
  {
    var endian := if little then 1 else 0;
    out[at + endian] := c / 256 % 256;
    out[at + 1 - endian] := c % 256;
    assert out[..] == Spliced(old(out[..]), at, Put16(c, little));
  }

  method PutBytes(out: array<byte>, at: nat, s: seq<byte>)
    requires at + |s| <= out.Length
    modifies out
    ensures out[..] == Spliced(old(out[..]), at, s)
  {
    hide Spliced;
    ghost var before := out[..];
    SpliceNone(before, at);
    var i := 0;
    while i < |s|
      invariant 0 <= i <= |s|
      invariant out[..] == Spliced(before, at, s[..i])
    {
      SpliceNext(before, at, s, i);
      out[at + i] := s[i];
      i := i + 1;
    }
    assert s[..i] == s;
  }

  /** utf8dec_wchar: the length of the character, -1 if it is illegal, -2 if it is cut off. */
  method GetUtf8(s: seq<byte>) returns (l: int, c: nat)
    requires s != []
    ensures l == -2 || l == -1 || l > 0
    ensures Dec(s) == if l == -2 then Short else if l == -1 then Illegal else Char(c, l)
  {
    c := 0;
    if s[0] <= 0x7F { return 1, s[0]; }
    var n := SeqLength(s[0]);
    if n == -1 || n > |s| { return -2, c; }
    if n < 5 {
      if IsOverlong(s, n) || IsSurrogate(s, n) || IsIllegal(s, n) { return -1, c; }
      c := Lead(s[0], n);
      var i: nat := 1;
      while i < n
        invariant 1 <= i <= n && c == Payload(s, n, i)
        invariant forall k :: 1 <= k < i ==> IsTail(s[k])
      {
        if s[i] < 0x80 || s[i] > 0xBF { return -1, c; }
        c := c * 64 + Six(s[i]);
        i := i + 1;
      }
      return n, c;
    }
    return -1, c;
  }

  /** The first half of the loop body: the next character of the source. */
  method ReadOne(d: Descriptor, s: seq<byte>) returns (r: Read)
    requires s != []
    ensures r == Next(d, s)
  {
    if d.from == FromUtf8 && s[0] >= 0x80 {
      var l, c := GetUtf8(s);
      if l == -1 { return Illegal; }
      if l == -2 { return Short; }
      r := if IsScalar(c) then Char(c, l) else Illegal;
    } else {
      r := One(d.from, d.bigEndian, s);
    }
  }

  /** The caller's buffers and the four variables that a call moves on. */
  class Buffers {
    const input: seq<byte>
    const output: array<byte>
    var at: nat       // *in
    var inb: nat
    var outAt: nat    // *out
    var outb: nat

    ghost predicate Valid()
      reads this
    {
      at + inb <= |input| && outAt + outb <= output.Length
    }

    constructor (input: seq<byte>, output: array<byte>)
      ensures Valid() && this.input == input && this.output == output
      ensures at == outAt == 0 && inb == |input| && outb == output.Length
    {
      this.input, this.output := input, output;
      at, inb, outAt, outb := 0, |input|, 0, output.Length;
    }

    function Rest(): seq<byte>
      reads this
      requires Valid()
    {
      input[at..at + inb]
    }

    /** `s` was written behind what was there before, or it did not fit and nothing happened. */
    ghost predicate Advanced(before: seq<byte>, outAt0: nat, outb0: nat, ok: bool, s: seq<byte>)
      reads this, output
      requires outAt0 + outb0 <= |before|
    {
      && (ok <==> |s| <= outb0)
      && outAt == outAt0 + (if ok then |s| else 0)
      && outb + (if ok then |s| else 0) == outb0
      && output[..] == if ok then Spliced(before, outAt0, s) else before
    }

    method WriteWchar(c: nat, bigEndian: bool) returns (ok: bool)
      requires Valid()
      modifies this`outAt, this`outb, output
      ensures Valid() && Advanced(old(output[..]), old(outAt), old(outb), ok, PutWchar(c, bigEndian))
    {
      hide PutWchar, Spliced;
      if outb < 4 { return false; }
      PutBytes(output, outAt, PutWchar(c, bigEndian));
      outAt, outb := outAt + 4, outb - 4;
      ok := true;
    }

    method WriteUtf8(c: nat) returns (ok: bool)
      requires Valid()
      modifies this`outAt, this`outb, output
      ensures Valid() && Advanced(old(output[..]), old(outAt), old(outb), ok, Enc(c))
    {
      var k;
      if outb < 4 {
        hide Enc;
        var tmp := new byte[16];
        k := PutUtf8(tmp, 0, c);
        if outb < k { return false; }
        assert tmp[..k] == Enc(c);
        PutBytes(output, outAt, tmp[..k]);
      } else {
        hide Enc, Spliced;
        k := PutUtf8(output, outAt, c);
      }
      hide Enc, Spliced;
      outAt, outb := outAt + k, outb - k;
      ok := true;
    }

    method WriteUtf16(c: nat, little: bool) returns (ok: bool)
      requires Valid() && c < 0x11_0000
      modifies this`outAt, this`outb, output
      ensures Valid() && Advanced(old(output[..]), old(outAt), old(outb), ok, Emit(ToUtf16(little), false, c))
    {
      hide Put16, Spliced;
      if c < 0x1_0000 {
        if outb < 2 { return false; }
        PutUnit(output, outAt, c, little);
        outAt, outb := outAt + 2, outb - 2;
      } else {
        if outb < 4 { return false; }
        ghost var before := output[..];
        PutUnit(output, outAt, 0xD800 + c / 1024, little);
        PutUnit(output, outAt + 2, 0xDC00 + c % 1024, little);
        SpliceTwice(before, outAt, Put16(0xD800 + c / 1024, little), Put16(0xDC00 + c % 1024, little));
        outAt, outb := outAt + 4, outb - 4;
      }
      ok := true;
    }

    /** The one-byte targets; what they cannot write becomes an asterisk and is counted. */
    method WriteNarrow(to: Target, c: nat) returns (ok: bool, lossy: bool)
      requires Valid() && (to.ToAscii? || to.ToLatin1? || to.ToLatin9?) && c < 0x11_0000
      modifies this`outAt, this`outb, output
      ensures Valid() && Advanced(old(output[..]), old(outAt), old(outb), ok, Emit(to, false, c))
      ensures ok ==> (lossy <==> IsLossy(to, c))
    {
      ghost var before := output[..];
      var n := c;
      if to.ToAscii? && n > 0x7F { n := 0xFFFD; }
      if (to.ToAscii? || to.ToLatin9?) && n >= 0x100 && n != 0xFFFD { n := Latin9Translit(n); }
      assert n == Narrowed(to, c);
      hide Latin9Translit, Narrowed;
      if outb == 0 { return false, false; }
      lossy := n >= 0x100;
      output[outAt] := if n < 0x100 then n else 0x2A;
      assert output[..] == Spliced(before, outAt, [NarrowByte(to, c)]);
      outAt, outb := outAt + 1, outb - 1;
      ok := true;
    }

    /** The second half of the loop body: the character for the target, if there is room. */
    method WriteOne(d: Descriptor, c: nat) returns (ok: bool, lossy: bool)
      requires Valid() && !d.to.ToUtf32? && c < 0x11_0000
      modifies this`outAt, this`outb, output
      ensures Valid() && Advanced(old(output[..]), old(outAt), old(outb), ok, Emit(d.to, d.bigEndian, c))
      ensures ok ==> (lossy <==> IsLossy(d.to, c))
    {
      hide Advanced, Enc, PutWchar, Put16;
      lossy := false;
      if d.to.ToWchar? {
        ok := WriteWchar(c, d.bigEndian);
      } else if d.to.ToUtf8? {
        ok := WriteUtf8(c);
      } else if d.to.ToUtf16? {
        ok := WriteUtf16(c, d.to.little);
      } else {
        ok, lossy := WriteNarrow(d.to, c);
      }
    }

    /** One turn of the loop: another character, or the reason why not. */
    method Turn(d: Descriptor) returns (err: Status, lossy: bool)
      requires Valid() && inb > 0
      modifies this, output
      ensures Valid()
      ensures var r := Next(d, old(Rest()));
              if err == Done then
                r.Char? && !d.to.ToUtf32? && (lossy <==> IsLossy(d.to, r.c))
                && at == old(at) + r.len && inb == old(inb) - r.len
                && Advanced(old(output[..]), old(outAt), old(outb), true, Emit(d.to, d.bigEndian, r.c))
              else
                Limited(d, old(Rest()), old(outb)) == Stop(err)
                && at == old(at) && inb == old(inb)
                && Advanced(old(output[..]), old(outAt), old(outb), true, [])
    {
      hide Limited, Next, Emit, IsLossy, Written;
      var rest := Rest();
      Stopping(d, rest, outb);
      SpliceNone(output[..], outAt);
      err, lossy := Done, false;
      var r := ReadOne(d, rest);
      match r {
        case Illegal => err := IllegalSequence;
        case Short => err := Starved;
        case Char(c, l) =>
          if d.to.ToUtf32? {
            err := BadTarget;
          } else {
            var ok;
            ok, lossy := WriteOne(d, c);
            if ok { at, inb := at + l, inb - l; } else { err := TooBig; }
          }
      }
    }

    /**
      The call: it converts character by character until the input ends or something is in
      the way, and leaves the caller's variables behind the last character it finished.
     */
    method Convert(d: Descriptor) returns (x: int, err: Status)
      requires Valid()
      modifies this, output
      ensures Valid()
      ensures var r := Limited(d, old(Rest()), old(outb));
              && r.used <= old(inb) && |r.out| <= old(outb)
              && at == old(at) + r.used && inb == old(inb) - r.used
              && outAt == old(outAt) + |r.out| && outb == old(outb) - |r.out|
              && output[..] == Spliced(old(output[..]), old(outAt), r.out)
              && err == r.status && x == Returned(r)
    {
      hide Limited, Next, Emit, IsLossy, Spliced, Then, Standing, Advanced;
      ghost var job := Job(d, Rest(), outb, output[..], outAt);
      ghost var sofar := Stop(Done);
      Starts(job);
      x, err := 0, Done;
      while inb > 0 && err == Done
        invariant Valid() && at == old(at) + sofar.used && inb + sofar.used == old(inb)
        invariant outAt == job.outAt + |sofar.out| && outb + |sofar.out| == job.room
        invariant Standing(job, sofar, Rest(), outb, output[..], err) && x == sofar.lossy
        decreases inb + (if err == Done then 1 else 0)
      {
        ghost var rest, room, bytes := Rest(), outb, output[..];
        ghost var out1 := outAt;
        var lossy;
        err, lossy := Turn(d);
        AfterTurn(bytes, out1, room, if err == Done then Emit(d.to, d.bigEndian, Next(d, rest).c) else []);
        if err == Done {
          ghost var c := Next(d, rest);
          assert Rest() == rest[c.len..];
          ghost var w := Written(d, c.c, c.len);
          OneMore(job, sofar, rest, room, bytes, c.c, c.len);
          sofar := Then(sofar, w);
          x := if lossy then x + 1 else x;
        } else {
          assert Rest() == rest;
          NoMore(job, sofar, rest, room, bytes, err);
        }
      }
      Ends(job, sofar, Rest(), outb, output[..], err);
      if err in {IllegalSequence, TooBig, BadTarget} { x := -1; }
    }

    lemma AfterTurn(bytes: seq<byte>, outAt0: nat, room: nat, s: seq<byte>)
      requires outAt0 + room <= |bytes| && Advanced(bytes, outAt0, room, true, s)
      ensures |s| <= room && outAt == outAt0 + |s| && outb + |s| == room
      ensures output[..] == Spliced(bytes, outAt0, s)
    {
    }
  }

  /** What a call was asked to do. */
  datatype Job = Job(d: Descriptor, s: seq<byte>, room: nat, before: seq<byte>, outAt: nat)

  /** Where the call stands: `sofar` is done, `rest` and `room` are left. */
  predicate Standing(job: Job, sofar: Outcome, rest: seq<byte>, room: nat, bytes: seq<byte>, err: Status) {
    && job.outAt + job.room <= |job.before| && |sofar.out| + room == job.room
    && bytes == Spliced(job.before, job.outAt, sofar.out)
    && Limited(job.d, job.s, job.room) == Then(sofar, if err == Done then Limited(job.d, rest, room) else Stop(err))
  }

  lemma Starts(job: Job)
    requires job.outAt + job.room <= |job.before|
    ensures Standing(job, Stop(Done), job.s, job.room, job.before, Done)
  {
    hide Limited, Spliced;
    SpliceNone(job.before, job.outAt);
    ThenStopped(Done, Limited(job.d, job.s, job.room));
    hide Then;
  }

  lemma OneMore(job: Job, sofar: Outcome, rest: seq<byte>, room: nat, bytes: seq<byte>, c: nat, l: nat)
    requires Standing(job, sofar, rest, room, bytes, Done)
    requires rest != [] && Next(job.d, rest) == Char(c, l) && !job.d.to.ToUtf32?
    requires |Emit(job.d.to, job.d.bigEndian, c)| <= room
    ensures var w := Written(job.d, c, l);
            && Then(sofar, w).out == sofar.out + w.out && w.out == Emit(job.d.to, job.d.bigEndian, c)
            && Then(sofar, w).used == sofar.used + l
            && Then(sofar, w).lossy == sofar.lossy + (if IsLossy(job.d.to, c) then 1 else 0)
            && Standing(job, Then(sofar, w), rest[l..], room - |w.out|,
                        Spliced(bytes, job.outAt + |sofar.out|, w.out), Done)
  {
    hide Limited, Next, Emit, IsLossy, Spliced;
    var w := Written(job.d, c, l);
    GoesOn(job.d, job.s, job.room, sofar, rest, room, c, l);
    SpliceTwice(job.before, job.outAt, sofar.out, w.out);
  }

  lemma NoMore(job: Job, sofar: Outcome, rest: seq<byte>, room: nat, bytes: seq<byte>, err: Status)
    requires Standing(job, sofar, rest, room, bytes, Done)
    requires Limited(job.d, rest, room) == Stop(err) && err != Done
    ensures Standing(job, sofar, rest, room, Spliced(bytes, job.outAt + |sofar.out|, []), err)
  {
    SpliceNone(bytes, job.outAt + |sofar.out|);
    hide Limited, Spliced, Then;
  }

  lemma Ends(job: Job, sofar: Outcome, rest: seq<byte>, room: nat, bytes: seq<byte>, err: Status)
    requires Standing(job, sofar, rest, room, bytes, err) && (err == Done ==> rest == [])
    ensures Limited(job.d, job.s, job.room) == sofar.(status := err)
    ensures job.outAt + |sofar.out| <= |job.before| && bytes == Spliced(job.before, job.outAt, sofar.out)
  {
    Stopping(job.d, rest, room);
    assert sofar.out + [] == sofar.out;
    hide Limited, Spliced;
  }

  lemma Stopping(d: Descriptor, s: seq<byte>, room: nat)
    ensures s == [] ==> Limited(d, s, room) == Stop(Done)
    ensures s != [] ==>
              match Next(d, s)
              case Illegal => Limited(d, s, room) == Stop(IllegalSequence)
              case Short => Limited(d, s, room) == Stop(Starved)
              case Char(c, len) =>
                if d.to.ToUtf32? then Limited(d, s, room) == Stop(BadTarget)
                else |Emit(d.to, d.bigEndian, c)| > room ==> Limited(d, s, room) == Stop(TooBig)
  {
    hide Next, Emit;
  }

  lemma GoesOn(d: Descriptor, s0: seq<byte>, room0: nat, sofar: Outcome, rest: seq<byte>, room: nat, c: nat, l: nat)
    requires Limited(d, s0, room0) == Then(sofar, Limited(d, rest, room))
    requires rest != [] && Next(d, rest) == Char(c, l) && !d.to.ToUtf32? && |Emit(d.to, d.bigEndian, c)| <= room
    ensures var w := Written(d, c, l);
            Limited(d, s0, room0) == Then(Then(sofar, w), Limited(d, rest[l..], room - |w.out|))
  {
    hide Limited, Next, Then, Emit, IsLossy;
    var w := TakesOne(d, rest, room);
    ThenAssoc(sofar, w, Limited(d, rest[w.used..], room - |w.out|));
  }
}
