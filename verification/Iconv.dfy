/**
  A conversion call as a function of its input and of the room it gets, and why it does
  not matter how a caller cuts a text into calls.
 */
module Iconv {
  import opened Words
  import opened Utf8
  import opened Charsets

  datatype Descriptor = Descriptor(from: Source, to: Target, bigEndian: bool)

  /** How a call ends: EILSEQ, EINVAL, E2BIG, EBADF or none of them. */
  datatype Status = Done | IllegalSequence | Starved | TooBig | BadTarget

  /** What was written, how many bytes were read, how many characters became asterisks. */
  datatype Outcome = Outcome(out: seq<byte>, used: nat, lossy: nat, status: Status)

  function Stop(status: Status): Outcome {
    Outcome([], 0, 0, status)
  }

  function Then(first: Outcome, next: Outcome): Outcome {
    Outcome(first.out + next.out, first.used + next.used, first.lossy + next.lossy, next.status)
  }

  function Next(d: Descriptor, s: seq<byte>): (r: Read)
    requires s != []
    ensures r.Char? ==> 1 <= r.len <= |s| && r.len <= 4 && r.c < 0x11_0000
  {
    One(d.from, d.bigEndian, s)
  }

  /** One character converted. */
  function Written(d: Descriptor, c: nat, len: nat): (o: Outcome)
    requires !d.to.ToUtf32? && c < 0x11_0000
    ensures 1 <= |o.out| <= 4 && o.used == len
  {
    Outcome(Emit(d.to, d.bigEndian, c), len, if IsLossy(d.to, c) then 1 else 0, Done)
  }

  /** A call that gets as much room as it needs. */
  function Whole(d: Descriptor, s: seq<byte>): Outcome
    decreases |s|
  {
    if s == [] then Stop(Done) else
      match Next(d, s)
      case Illegal => Stop(IllegalSequence)
      case Short => Stop(Starved)
      case Char(c, len) =>
        if d.to.ToUtf32? then Stop(BadTarget) else Then(Written(d, c, len), Whole(d, s[len..]))
  }

  /** A call that may write `room` bytes. */
  function Limited(d: Descriptor, s: seq<byte>, room: nat): (r: Outcome)
    decreases |s|
  {
    if s == [] then Stop(Done) else
      match Next(d, s)
      case Illegal => Stop(IllegalSequence)
      case Short => Stop(Starved)
      case Char(c, len) =>
        if d.to.ToUtf32? then Stop(BadTarget) else
          var w := Written(d, c, len);
          if |w.out| > room then Stop(TooBig) else Then(w, Limited(d, s[len..], room - |w.out|))
  }

  /** What the call returns; an input that ends too early does not make it -1. */
  function Returned(r: Outcome): int {
    if r.status in {IllegalSequence, TooBig, BadTarget} then -1 else r.lossy
  }

  // ---- A call stops between characters ----

  lemma ThenAssoc(a: Outcome, b: Outcome, c: Outcome)
    ensures Then(Then(a, b), c) == Then(a, Then(b, c))
  {
    assert a.out + b.out + c.out == a.out + (b.out + c.out);
  }

  /** The call converts another character. */
  predicate Takes(d: Descriptor, s: seq<byte>, room: nat) {
    s != [] && Next(d, s).Char? && !d.to.ToUtf32? && |Written(d, Next(d, s).c, Next(d, s).len).out| <= room
  }

  lemma TakesOne(d: Descriptor, s: seq<byte>, room: nat) returns (w: Outcome)
    requires Takes(d, s, room)
    ensures 1 <= w.used <= |s| && |w.out| <= room && w == Written(d, Next(d, s).c, Next(d, s).len)
    ensures Limited(d, s, room) == Then(w, Limited(d, s[w.used..], room - |w.out|))
    ensures Whole(d, s) == Then(w, Whole(d, s[w.used..]))
  {
    w := Written(d, Next(d, s).c, Next(d, s).len);
    hide Next, Written;
  }

  lemma TakesNone(d: Descriptor, s: seq<byte>, room: nat)
    requires !Takes(d, s, room)
    ensures var st := Limited(d, s, room).status;
            Limited(d, s, room) == Stop(st) && (st != TooBig ==> Whole(d, s) == Stop(st))
  {
    hide Next, Written;
  }

  lemma {:induction false} WithinBounds(d: Descriptor, s: seq<byte>, room: nat)
    ensures var r := Limited(d, s, room); r.used <= |s| && |r.out| <= room
    decreases |s|
  {
    hide Takes, Limited, Whole;
    if !Takes(d, s, room) {
      TakesNone(d, s, room);
    } else {
      var w := TakesOne(d, s, room);
      hide Written;
      WithinBounds(d, s[w.used..], room - |w.out|);
    }
  }

  lemma ThenStopped(st: Status, o: Outcome)
    ensures Then(Stop(st), o) == o
  {
    assert [] + o.out == o.out;
  }

  /**
    A call that is cut short by its room has done a whole number of characters: what it
    did, followed by a call on the rest, is the call it would have been.
   */
  lemma {:induction false} Resumes(d: Descriptor, s: seq<byte>, room: nat)
    requires Limited(d, s, room).used <= |s|
    ensures var r := Limited(d, s, room);
            && Whole(d, s) == Then(r, Whole(d, s[r.used..]))
            && (r.status != TooBig ==> Whole(d, s[r.used..]) == Stop(r.status))
    decreases |s|
  {
    hide Takes, Limited, Whole;
    if Takes(d, s, room) {
      var w := TakesOne(d, s, room);
      var s', room' := s[w.used..], room - |w.out|;
      var rest := Limited(d, s', room');
      assert Limited(d, s, room).used == w.used + rest.used && Limited(d, s, room).status == rest.status;
      Resumes(d, s', room');
      assert s'[rest.used..] == s[w.used + rest.used..];
      ThenAssoc(w, rest, Whole(d, s'[rest.used..]));
      hide Then;
    } else {
      TakesNone(d, s, room);
      assert s[0..] == s;
      ThenStopped(Limited(d, s, room).status, Whole(d, s));
    }
  }

  /** What a call has written is the conversion of what it has read. */
  lemma {:induction false} NothingHalfDone(d: Descriptor, s: seq<byte>, room: nat)
    requires Limited(d, s, room).used <= |s|
    ensures var r := Limited(d, s, room); Whole(d, s[..r.used]) == r.(status := Done)
    decreases |s|
  {
    hide Takes, Limited, Whole;
    if !Takes(d, s, room) {
      TakesNone(d, s, room);
      EmptyIsDone(d, s[..0]);
    } else {
      var w := TakesOne(d, s, room);
      var s', room' := s[w.used..], room - |w.out|;
      var rest := Limited(d, s', room');
      var k := w.used + rest.used;
      assert Limited(d, s, room).used == k;
      NothingHalfDone(d, s', room');
      TakesFromPrefix(d, s, room, k);
      var w' := TakesOne(d, s[..k], room);
      hide Written;
      assert s[..k][w.used..] == s'[..rest.used];
    }
  }

  lemma TakesFromPrefix(d: Descriptor, s: seq<byte>, room: nat, k: nat)
    requires Takes(d, s, room) && Next(d, s).len <= k <= |s|
    ensures Takes(d, s[..k], room) && Next(d, s[..k]) == Next(d, s)
  {
    hide Next, Written;
    NextIsLocal(d, s, s[..k]);
  }

  lemma NextIsLocal(d: Descriptor, s: seq<byte>, t: seq<byte>)
    requires s != [] && Next(d, s).Char? && Next(d, s).len <= |t| <= |s| && t == s[..|t|]
    ensures t != [] && Next(d, t) == Next(d, s)
  {
    var len := Next(d, s).len;
    hide One;
    OneIsLocal(d.from, d.bigEndian, s);
    OneIsStable(d.from, d.bigEndian, s[..len], t[len..]);
    assert s[..len] + t[len..] == t;
  }

  /** With room for four bytes a call gets on. */
  lemma RoomEnough(d: Descriptor, s: seq<byte>, room: nat)
    requires 4 <= room && Limited(d, s, room).status == TooBig
    ensures Limited(d, s, room).used > 0
  {
  }

  /** Room for four times the input is as good as room without a limit. */
  lemma {:induction false} RoomForAll(d: Descriptor, s: seq<byte>, room: nat)
    requires 4 * |s| <= room
    ensures Limited(d, s, room) == Whole(d, s)
    decreases |s|
  {
    hide Next, Written;
    if s == [] {
    } else {
      var c := Next(d, s);
      if c.Char? && !d.to.ToUtf32? { RoomForAll(d, s[c.len..], room - |Written(d, c.c, c.len).out|); }
    }
  }

  // ---- Input that comes in pieces ----

  /** What a call on `a + b` does, given what it does on `a`. */
  function Extended(d: Descriptor, a: seq<byte>, b: seq<byte>): Outcome
    requires Whole(d, a).used <= |a|
  {
    var r := Whole(d, a);
    if r.status in {Done, Starved} then Then(r, Whole(d, a[r.used..] + b)) else r
  }

  /** More input makes a call go on where it ran out, and changes nothing if it met an error. */
  lemma {:induction false} Extends(d: Descriptor, a: seq<byte>, b: seq<byte>)
    requires Whole(d, a).used <= |a|
    ensures Whole(d, a + b) == Extended(d, a, b)
    decreases |a|
  {
    if Takes(d, a, 4) {
      NextIsStable(d, a, b);
      var w := TakesOne(d, a, 4);
      var _ := TakesOne(d, a + b, 4);
      ExtendsOne(d, a, b, w);
    } else {
      hide Extended;
      ExtendsNone(d, a, b);
    }
  }

  lemma ExtendsOne(d: Descriptor, a: seq<byte>, b: seq<byte>, w: Outcome)
    requires 1 <= w.used <= |a| && Whole(d, a).used <= |a|
    requires Whole(d, a) == Then(w, Whole(d, a[w.used..]))
    requires Whole(d, a + b) == Then(w, Whole(d, (a + b)[w.used..]))
    ensures Whole(d, a + b) == Extended(d, a, b)
    decreases |a|, 0
  {
    hide Whole;
    var a' := a[w.used..];
    var rest := Whole(d, a');
    assert Whole(d, a).used == w.used + rest.used && Whole(d, a).status == rest.status;
    assert (a + b)[w.used..] == a' + b;
    Extends(d, a', b);
    assert a[w.used + rest.used..] == a'[rest.used..];
    ThenAssoc(w, rest, Whole(d, a'[rest.used..] + b));
    hide Then;
  }

  lemma ExtendsNone(d: Descriptor, a: seq<byte>, b: seq<byte>)
    requires !Takes(d, a, 4)
    ensures Whole(d, a).used <= |a| && Whole(d, a + b) == Extended(d, a, b)
  {
    hide Next, Written, Then;
    if a == [] {
      assert a + b == b && a[0..] + b == b;
      ThenStopped(Done, Whole(d, b));
    } else if Next(d, a).Short? {
      assert a[0..] + b == a + b;
      ThenStopped(Starved, Whole(d, a + b));
    } else {
      NextIsStable(d, a, b);
      WrittenFits(d, Next(d, a));
    }
  }

  lemma WrittenFits(d: Descriptor, r: Read)
    ensures r.Char? && !d.to.ToUtf32? && r.c < 0x11_0000 ==> |Written(d, r.c, r.len).out| <= 4
  {
  }

  lemma NextIsStable(d: Descriptor, a: seq<byte>, b: seq<byte>)
    requires a != [] && !Next(d, a).Short?
    ensures Next(d, a + b) == Next(d, a)
  {
    hide One;
    OneIsStable(d.from, d.bigEndian, a, b);
  }

  lemma UsedWithin(d: Descriptor, s: seq<byte>)
    ensures Whole(d, s).used <= |s| && |Whole(d, s).out| <= 4 * |s|
  {
    RoomForAll(d, s, 4 * |s|);
    WithinBounds(d, s, 4 * |s|);
  }

  // ---- A caller that converts a text with many calls ----

  /** More input for the next call, and the size of its output buffer. */
  datatype Call = Call(feed: seq<byte>, room: nat)

  /** What was written and counted by all calls, and the input that the last one left. */
  datatype Session = Session(sofar: Outcome, pending: seq<byte>)

  const START := Session(Stop(Done), [])

  function Serve(d: Descriptor, st: Session, call: Call): Session {
    var input := st.pending + call.feed;
    var r := Limited(d, input, call.room);
    WithinBounds(d, input, call.room);
    Session(Then(st.sofar, r), input[r.used..])
  }

  function ServeAll(d: Descriptor, calls: seq<Call>): Session {
    if calls == [] then START else
      Serve(d, ServeAll(d, calls[..|calls| - 1]), calls[|calls| - 1])
  }

  function Fed(calls: seq<Call>): seq<byte> {
    if calls == [] then [] else Fed(calls[..|calls| - 1]) + calls[|calls| - 1].feed
  }

  /** The calls so far, followed by one call on what is pending, do the whole text. */
  predicate OnTrack(d: Descriptor, st: Session, text: seq<byte>) {
    && st.sofar.used <= |text| && st.pending == text[st.sofar.used..]
    && Whole(d, text) == Then(st.sofar, Whole(d, st.pending))
    && (st.sofar.status != TooBig ==> Whole(d, st.pending) == Stop(st.sofar.status))
  }

  lemma ServeKeepsTrack(d: Descriptor, st: Session, text: seq<byte>, call: Call)
    requires OnTrack(d, st, text)
    ensures OnTrack(d, Serve(d, st, call), text + call.feed)
  {
    hide Limited, Whole;
    var rest := Whole(d, st.pending);
    var input := st.pending + call.feed;
    var r := Limited(d, input, call.room);
    UsedWithin(d, text);
    FeedKeepsTrack(d, st, text, call.feed);
    WithinBounds(d, input, call.room);
    Resumes(d, input, call.room);
    assert input == (text + call.feed)[st.sofar.used..];
    assert input[r.used..] == (text + call.feed)[st.sofar.used + r.used..];
    ThenAssoc(st.sofar, r, Whole(d, input[r.used..]));
  }

  lemma FeedKeepsTrack(d: Descriptor, st: Session, text: seq<byte>, feed: seq<byte>)
    requires OnTrack(d, st, text)
    ensures Whole(d, text + feed) == Then(st.sofar, Whole(d, st.pending + feed))
  {
    hide Whole;
    UsedWithin(d, text);
    UsedWithin(d, st.pending);
    Extends(d, text, feed);
    Extends(d, st.pending, feed);
    var rest := Whole(d, st.pending);
    var whole := Whole(d, text);
    if whole.status in {Done, Starved} {
      assert text[whole.used..] == st.pending[rest.used..];
      ThenAssoc(st.sofar, rest, Whole(d, text[whole.used..] + feed));
    }
  }

  lemma TrackStarts(d: Descriptor)
    ensures OnTrack(d, START, [])
  {
    hide Whole, Then;
    var empty: seq<byte> := [];
    EmptyIsDone(d, empty);
    ThenStopped(Done, Stop(Done));
    assert empty[0..] == empty;
  }

  lemma EmptyIsDone(d: Descriptor, s: seq<byte>)
    requires s == []
    ensures Whole(d, s) == Stop(Done)
  {
    hide Next, Written, Then;
  }

  /**
    However a text is cut into pieces and whatever room each call gets, what the calls
    write is the beginning of what one call would write, and nothing is lost.
   */
  lemma {:induction false} PiecesDoNotMatter(d: Descriptor, calls: seq<Call>)
    ensures OnTrack(d, ServeAll(d, calls), Fed(calls))
    decreases |calls|
  {
    hide OnTrack, Serve;
    if calls == [] {
      TrackStarts(d);
    } else {
      PiecesDoNotMatter(d, calls[..|calls| - 1]);
      ServeKeepsTrack(d, ServeAll(d, calls[..|calls| - 1]), Fed(calls[..|calls| - 1]), calls[|calls| - 1]);
    }
  }

  /** Calls without new input that offer room for a character. */
  predicate AreDrains(calls: seq<Call>) {
    forall i :: 0 <= i < |calls| ==> calls[i].feed == [] && 4 <= calls[i].room
  }

  /** Each such call gets on until the input is used up, so in the end none is out of room. */
  lemma {:induction false} Drains(d: Descriptor, calls: seq<Call>, drains: seq<Call>)
    requires AreDrains(drains)
    ensures var st := ServeAll(d, calls + drains);
            st.sofar.status != TooBig || |st.pending| + |drains| <= |ServeAll(d, calls).pending|
    decreases |drains|
  {
    if drains == [] {
      assert calls + drains == calls;
    } else {
      var n := |drains| - 1;
      var before := calls + drains[..n];
      assert calls + drains == before + [drains[n]];
      assert (calls + drains)[..|calls| + n] == before;
      Drains(d, calls, drains[..n]);
      hide Limited;
      DrainOnce(d, ServeAll(d, before), drains[n]);
      PiecesDoNotMatter(d, before);
      hide ServeAll, Serve;
      StoppedStays(d, before, drains[n]);
    }
  }

  lemma DrainOnce(d: Descriptor, st: Session, call: Call)
    requires call.feed == [] && 4 <= call.room
    ensures var st' := Serve(d, st, call);
            st'.sofar.status == TooBig ==> |st'.pending| < |st.pending|
  {
    assert st.pending + call.feed == st.pending;
    var r := Limited(d, st.pending, call.room);
    WithinBounds(d, st.pending, call.room);
    if r.status == TooBig { RoomEnough(d, st.pending, call.room); }
    hide Limited;
  }

  /** A session that stopped for another reason than room stays where it is. */
  lemma StoppedStays(d: Descriptor, calls: seq<Call>, call: Call)
    requires call.feed == []
    ensures var st := ServeAll(d, calls);
            st.sofar.status != TooBig ==> Serve(d, st, call).sofar.status == st.sofar.status
  {
    var st := ServeAll(d, calls);
    PiecesDoNotMatter(d, calls);
    hide ServeAll, Limited, Whole;
    assert st.pending + call.feed == st.pending;
    WithinBounds(d, st.pending, call.room);
    Resumes(d, st.pending, call.room);
    if st.sofar.status != TooBig { LimitedStatus(d, st.pending, call.room); }
  }

  lemma LimitedStatus(d: Descriptor, s: seq<byte>, room: nat)
    requires Whole(d, s) == Stop(Whole(d, s).status)
    ensures Limited(d, s, room) == Whole(d, s)
  {
  }

  /**
    Output, position and status of a finished session are those of a single call with
    room for everything.
   */
  lemma SessionIsOneCall(d: Descriptor, calls: seq<Call>, drains: seq<Call>)
    requires AreDrains(drains) && |drains| > |ServeAll(d, calls).pending|
    ensures ServeAll(d, calls + drains).sofar == Whole(d, Fed(calls))
  {
    hide ServeAll;
    Drains(d, calls, drains);
    PiecesDoNotMatter(d, calls + drains);
    DrainsFeedNothing(calls, drains);
    var st := ServeAll(d, calls + drains);
    assert Then(st.sofar, Stop(st.sofar.status)).out == st.sofar.out;
  }

  lemma {:induction false} DrainsFeedNothing(calls: seq<Call>, drains: seq<Call>)
    requires AreDrains(drains)
    ensures Fed(calls + drains) == Fed(calls)
    decreases |drains|
  {
    if drains == [] {
      assert calls + drains == calls;
    } else {
      var n := |drains| - 1;
      assert (calls + drains)[..|calls| + n] == calls + drains[..n];
      DrainsFeedNothing(calls, drains[..n]);
    }
  }

  // ---- What the caller can count ----

  /** What the `i`-th call of a session did. */
  function Reply(d: Descriptor, calls: seq<Call>, i: nat): Outcome
    requires i < |calls|
  {
    Limited(d, ServeAll(d, calls[..i]).pending + calls[i].feed, calls[i].room)
  }

  /** The sum of the results that were not -1. */
  function CallerCount(d: Descriptor, calls: seq<Call>): nat {
    if calls == [] then 0
    else
      var n := |calls| - 1;
      CallerCount(d, calls[..n]) + (if Returned(Reply(d, calls, n)) == -1 then 0 else Returned(Reply(d, calls, n)))
  }

  /** A call that failed had written an asterisk, so its count is lost. */
  predicate HidesLoss(d: Descriptor, calls: seq<Call>, i: nat)
    requires i < |calls|
  {
    Returned(Reply(d, calls, i)) == -1 && Reply(d, calls, i).lossy > 0
  }

  lemma SameLoss(d: Descriptor, calls: seq<Call>, n: nat, i: nat)
    requires i < n <= |calls|
    ensures HidesLoss(d, calls[..n], i) <==> HidesLoss(d, calls, i)
  {
    assert calls[..n][..i] == calls[..i];
  }

  lemma LastCount(d: Descriptor, calls: seq<Call>)
    requires calls != []
    ensures var n := |calls| - 1;
            var o := Reply(d, calls, n);
            && ServeAll(d, calls).sofar.lossy == ServeAll(d, calls[..n]).sofar.lossy + o.lossy
            && CallerCount(d, calls) == CallerCount(d, calls[..n]) + (if HidesLoss(d, calls, n) then 0 else o.lossy)
            && (HidesLoss(d, calls, n) ==> o.lossy > 0)
  {
    hide Limited;
    var n := |calls| - 1;
    assert ServeAll(d, calls) == Serve(d, ServeAll(d, calls[..n]), calls[n]);
    hide ServeAll;
  }

  /**
    The results of the calls add up to the number of asterisks written if and only if no
    call that returned -1 had written one.
   */
  lemma {:induction false} CountsAddUp(d: Descriptor, calls: seq<Call>)
    ensures CallerCount(d, calls) <= ServeAll(d, calls).sofar.lossy
    ensures CallerCount(d, calls) == ServeAll(d, calls).sofar.lossy
       <==> forall i :: 0 <= i < |calls| ==> !HidesLoss(d, calls, i)
    decreases |calls|
  {
    hide Reply, ServeAll, CallerCount, HidesLoss;
    if calls == [] {
      NothingCounted(d, calls);
    } else {
      var n := |calls| - 1;
      LastCount(d, calls);
      CountsAddUp(d, calls[..n]);
      forall i | 0 <= i < n ensures HidesLoss(d, calls[..n], i) <==> HidesLoss(d, calls, i) {
        SameLoss(d, calls, n, i);
      }
    }
  }

  lemma NothingCounted(d: Descriptor, calls: seq<Call>)
    requires calls == []
    ensures CallerCount(d, calls) == ServeAll(d, calls).sofar.lossy == 0
  {
  }

  /** For a finished session, that decides whether the caller can know what one call would have counted. */
  lemma SessionCount(d: Descriptor, calls: seq<Call>, drains: seq<Call>)
    requires AreDrains(drains) && |drains| > |ServeAll(d, calls).pending|
    ensures CallerCount(d, calls + drains) == Whole(d, Fed(calls)).lossy
       <==> forall i :: 0 <= i < |calls + drains| ==> !HidesLoss(d, calls + drains, i)
  {
    hide ServeAll, CallerCount, HidesLoss, Whole, Fed;
    SessionIsOneCall(d, calls, drains);
    CountsAddUp(d, calls + drains);
  }

  const TO_ASCII := Descriptor(FromLatin1, ToAscii, false)

  lemma Asterisk(s: seq<byte>, room: nat)
    requires s != [] && s[0] == 0x80
    ensures Limited(TO_ASCII, s, room)
         == if room == 0 then Stop(TooBig) else Then(Outcome([0x2A], 1, 1, Done), Limited(TO_ASCII, s[1..], room - 1))
  {
    assert Next(TO_ASCII, s) == Char(0x80, 1);
    assert Written(TO_ASCII, 0x80, 1) == Outcome([0x2A], 1, 1, Done);
    hide Next, Written;
  }

  /** Two bytes that ASCII lacks, first with room for one of them: the caller learns of one asterisk. */
  lemma CountIsLost()
    ensures var calls := [Call([0x80, 0x80], 1), Call([], 1)];
            CallerCount(TO_ASCII, calls) == 1 && ServeAll(TO_ASCII, calls).sofar.lossy == 2
  {
    hide Limited;
    var first, second := Call([0x80, 0x80], 1), Call([], 1);
    var calls := [first, second];
    assert calls[..1] == [first] && [first][..0] == [] && calls[..0] == [];
    var two, one: seq<byte> := [0x80, 0x80], [0x80];
    assert [] + two == two && two[1..] == one && one + [] == one;
    Asterisk(two, 1);
    Asterisk(one, 0);
    Asterisk(one, 1);
    EmptyIsLimited(TO_ASCII, one[1..], 0);
    assert Reply(TO_ASCII, calls, 0).status == TooBig && Serve(TO_ASCII, START, first).pending == one;
    assert Reply(TO_ASCII, calls, 1).status == Done;
  }

  lemma EmptyIsLimited(d: Descriptor, s: seq<byte>, room: nat)
    requires s == []
    ensures Limited(d, s, room) == Stop(Done)
  {
  }
}
