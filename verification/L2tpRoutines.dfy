/**
  Message routines as rpcgen writes them: XDR calls one after the other, where a run of
  integers and booleans is stored straight into the stream's memory if the stream gives
  out a pointer.  The direct path copies a boolean as it stands; the calls turn it into
  0 or 1.
 */
module L2tpRoutines {
  import opened Words
  import opened Xdr
  import opened XdrStreams

  datatype Slot = Long | Flag

  datatype Part =
    | Call(t: Type)              // a call that exists on one path only
    | Block(slots: seq<Slot>)    // the direct path beside the same calls
    | Nest(parts: seq<Part>)     // a routine

  function SlotTypes(slots: seq<Slot>, direct: bool): (ts: seq<Type>)
    ensures |ts| == |slots|
  {
    if slots == [] then [] else
      [if slots[0] == Flag && !direct then Bool else Int] + SlotTypes(slots[1..], direct)
  }

  /** The routine when no pointer is given out. */
  function Slow(p: Part): Type
    decreases p
  {
    match p
    case Call(t) => t
    case Block(slots) => Record(SlotTypes(slots, false))
    case Nest(parts) => Record(SlowAll(parts))
  }

  function SlowAll(ps: seq<Part>): (ts: seq<Type>)
    ensures |ts| == |ps|
    decreases ps
  {
    if ps == [] then [] else [Slow(ps[0])] + SlowAll(ps[1..])
  }

  /** `r` is what the routine does when a pointer is given out for some of its blocks. */
  predicate Mix(p: Part, r: Type)
    decreases p
  {
    match p
    case Call(t) => r == t
    case Block(slots) => exists direct: bool :: r == Record(SlotTypes(slots, direct))
    case Nest(parts) => r.Record? && MixAll(parts, r.fields)
  }

  predicate MixAll(ps: seq<Part>, rs: seq<Type>)
    decreases ps
  {
    |ps| == |rs| && (ps == [] || (Mix(ps[0], rs[0]) && MixAll(ps[1..], rs[1..])))
  }

  lemma {:induction false} SlowIsMix(p: Part)
    ensures Mix(p, Slow(p))
    decreases p, 0
  {
    match p
    case Nest(parts) => SlowAreMix(parts);
    case _ =>
  }

  lemma {:induction false} SlowAreMix(ps: seq<Part>)
    ensures MixAll(ps, SlowAll(ps))
    decreases ps, 0
  {
    if ps == [] {
    } else {
      SlowIsMix(ps[0]);
      SlowAreMix(ps[1..]);
    }
  }

  // ---- A mix has the same values, limits and length ----

  lemma {:induction false} SlotsTyped(slots: seq<Slot>, direct: bool, vs: seq<Value>)
    ensures AllTyped(SlotTypes(slots, direct), vs) <==> AllTyped(SlotTypes(slots, false), vs)
    ensures AllTyped(SlotTypes(slots, direct), vs) ==>
              && AllFits(SlotTypes(slots, direct), vs) && AllFits(SlotTypes(slots, false), vs)
              && |EncAll(SlotTypes(slots, direct), vs)| == 4 * |slots|
  {
    if slots == [] || vs == [] {
    } else {
      SlotsTyped(slots[1..], direct, vs[1..]);
    }
  }

  /** A field holds the same values whichever path transfers it, under the same limits and in as many bytes. */
  lemma {:induction false} MixTyped(p: Part, r: Type, v: Value)
    requires Mix(p, r)
    ensures Typed(r, v) <==> Typed(Slow(p), v)
    ensures Typed(r, v) ==> (Fits(r, v) <==> Fits(Slow(p), v)) && |Enc(r, v)| == |Enc(Slow(p), v)|
    decreases p, 0
  {
    match p
    case Call(t) =>
    case Block(slots) =>
      var direct: bool :| r == Record(SlotTypes(slots, direct));
      if v.Many? {
        SlotsTyped(slots, direct, v.items);
        SlotsTyped(slots, false, v.items);
      }
    case Nest(parts) => if v.Many? { MixAllTyped(parts, r.fields, v.items); }
  }

  lemma {:induction false} MixAllTyped(ps: seq<Part>, rs: seq<Type>, vs: seq<Value>)
    requires MixAll(ps, rs)
    ensures AllTyped(rs, vs) <==> AllTyped(SlowAll(ps), vs)
    ensures AllTyped(rs, vs) ==>
              && (AllFits(rs, vs) <==> AllFits(SlowAll(ps), vs))
              && |EncAll(rs, vs)| == |EncAll(SlowAll(ps), vs)|
    decreases ps, 0
  {
    if ps == [] || |vs| != |rs| {
    } else {
      MixTyped(ps[0], rs[0], vs[0]);
      MixAllTyped(ps[1..], rs[1..], vs[1..]);
    }
  }

  // ---- When the two paths write the same bytes ----

  /** Every boolean that the mix `r` writes directly is 0 or 1. */
  predicate Canonical(p: Part, r: Type, v: Value)
    requires Mix(p, r) && Typed(r, v)
    decreases p, 0
  {
    match p
    case Call(_) => true
    case Block(slots) =>
      r == Slow(p) || forall i :: 0 <= i < |slots| && slots[i] == Flag ==> IsFlag(v.items, i)
    case Nest(parts) => AllCanonical(parts, r.fields, v.items)
  }

  predicate IsFlag(vs: seq<Value>, i: nat)
  {
    i < |vs| && (vs[i] == Num(0) || vs[i] == Num(1))
  }

  predicate AllCanonical(ps: seq<Part>, rs: seq<Type>, vs: seq<Value>)
    requires MixAll(ps, rs) && AllTyped(rs, vs)
    decreases ps, 0
  {
    ps == [] || (Canonical(ps[0], rs[0], vs[0]) && AllCanonical(ps[1..], rs[1..], vs[1..]))
  }

  /** Pieces of equal lengths are equal as a whole only if they are one by one. */
  lemma PiecesAgree(a: seq<byte>, b: seq<byte>, a': seq<byte>, b': seq<byte>)
    requires |a| == |a'|
    ensures a + b == a' + b' <==> a == a' && b == b'
  {
    if a + b == a' + b' {
      assert (a + b)[..|a|] == a && (a' + b')[..|a|] == a';
      assert (a + b)[|a|..] == b && (a' + b')[|a|..] == b';
    }
  }

  lemma UnitsAgree(m: int, n: int)
    requires IsInt(m) && IsInt(n)
    ensures ToBe32(m) == ToBe32(n) <==> m == n
  {
    UnitBack(m, []);
    UnitBack(n, []);
    IntBack(m);
    IntBack(n);
  }

  lemma {:induction false} SlotsAgree(slots: seq<Slot>, vs: seq<Value>)
    requires AllTyped(SlotTypes(slots, true), vs) && AllTyped(SlotTypes(slots, false), vs)
    ensures EncAll(SlotTypes(slots, true), vs) == EncAll(SlotTypes(slots, false), vs)
       <==> forall i :: 0 <= i < |slots| && slots[i] == Flag ==> IsFlag(vs, i)
  {
    if slots == [] {
    } else {
      hide ToBe32;
      var fast, slow := SlotTypes(slots, true), SlotTypes(slots, false);
      SlotsAgree(slots[1..], vs[1..]);
      UnitsAgree(vs[0].n, Truth(vs[0].n));
      PiecesAgree(Enc(fast[0], vs[0]), EncAll(fast[1..], vs[1..]), Enc(slow[0], vs[0]), EncAll(slow[1..], vs[1..]));
      FlagsSplit(slots, vs);
    }
  }

  lemma FlagsSplit(slots: seq<Slot>, vs: seq<Value>)
    requires slots != [] && |vs| == |slots|
    ensures (forall i :: 0 <= i < |slots| && slots[i] == Flag ==> IsFlag(vs, i))
       <==> (slots[0] == Flag ==> IsFlag(vs, 0))
            && forall i :: 0 <= i < |slots[1..]| && slots[1..][i] == Flag ==> IsFlag(vs[1..], i)
  {
    if forall i :: 0 <= i < |slots[1..]| && slots[1..][i] == Flag ==> IsFlag(vs[1..], i) {
      forall i | 1 <= i < |slots| && slots[i] == Flag ensures IsFlag(vs, i) {
        assert slots[1..][i - 1] == Flag ==> IsFlag(vs[1..], i - 1);
      }
    }
    if forall i :: 0 <= i < |slots| && slots[i] == Flag ==> IsFlag(vs, i) {
      forall i | 0 <= i < |slots[1..]| && slots[1..][i] == Flag ensures IsFlag(vs[1..], i) {
        assert IsFlag(vs, i + 1);
      }
    }
  }

  /** The direct path and the calls write the same bytes exactly when the booleans are canonical. */
  lemma {:induction false} MixWritesTheSame(p: Part, r: Type, v: Value)
    requires Mix(p, r) && Typed(r, v) && Typed(Slow(p), v)
    ensures Enc(r, v) == Enc(Slow(p), v) <==> Canonical(p, r, v)
    decreases p, 0
  {
    match p
    case Call(t) =>
    case Block(slots) => if r != Slow(p) { SlotsAgree(slots, v.items); }
    case Nest(parts) => MixAllWriteTheSame(parts, r.fields, v.items);
  }

  lemma {:induction false} MixAllWriteTheSame(ps: seq<Part>, rs: seq<Type>, vs: seq<Value>)
    requires MixAll(ps, rs) && AllTyped(rs, vs) && AllTyped(SlowAll(ps), vs)
    ensures EncAll(rs, vs) == EncAll(SlowAll(ps), vs) <==> AllCanonical(ps, rs, vs)
    decreases ps, 0
  {
    if ps == [] {
    } else {
      hide Enc, Typed;
      var slow := SlowAll(ps);
      MixTyped(ps[0], rs[0], vs[0]);
      MixWritesTheSame(ps[0], rs[0], vs[0]);
      MixAllWriteTheSame(ps[1..], rs[1..], vs[1..]);
      PiecesAgree(Enc(rs[0], vs[0]), EncAll(rs[1..], vs[1..]), Enc(slow[0], vs[0]), EncAll(slow[1..], vs[1..]));
    }
  }

  // ---- What the two paths read ----

  /** `e` was read by a mix and `d` by the calls: they agree up to the truth of booleans. */
  predicate SameRead(t: Type, d: Decoded<Value>, e: Decoded<Value>) {
    match e
    case Fail => d.Fail?
    case Got(v, rest) => Typed(t, v) && d == Got(Norm(t, v), rest)
  }

  predicate SameReads(ts: seq<Type>, d: Decoded<seq<Value>>, e: Decoded<seq<Value>>) {
    match e
    case Fail => d.Fail?
    case Got(vs, rest) => AllTyped(ts, vs) && d == Got(NormAll(ts, vs), rest)
  }

  lemma SlotRead(t: Type, s: seq<byte>)
    requires t == Int || t == Bool
    ensures SameRead(t, Dec(t, s), Dec(Int, s))
    ensures Dec(t, s).Got? <==> DecUnit(s).Got?
    ensures Dec(t, s).Got? ==> Dec(t, s).rest == DecUnit(s).rest
  {
    hide DecUnit, Truth, AsInt32;
    if DecUnit(s).Got? { TruthKept(DecUnit(s).value); }
  }

  lemma {:induction false} SlotsRead(slots: seq<Slot>, s: seq<byte>)
    ensures SameReads(SlotTypes(slots, false), DecAll(SlotTypes(slots, false), s), DecAll(SlotTypes(slots, true), s))
  {
    if slots == [] {
    } else {
      hide Dec, Typed, Norm, DecUnit;
      var slow, fast := SlotTypes(slots, false), SlotTypes(slots, true);
      var d := Dec(Int, s);
      SlotRead(slow[0], s);
      assert fast[0] == Int && fast[1..] == SlotTypes(slots[1..], true) && slow[1..] == SlotTypes(slots[1..], false);
      if d.Got? { SlotsRead(slots[1..], d.rest); }
    }
  }

  lemma TruthKept(n: Uint)
    ensures Truth(AsInt32(n)) == Truth(n) && IsInt(AsInt32(n))
  {
  }

  /** Whichever mix reads a message, it is the one the calls read, up to the truth of booleans. */
  lemma {:induction false} MixReadsTheSame(p: Part, r: Type, s: seq<byte>)
    requires Mix(p, r)
    ensures SameRead(Slow(p), Dec(Slow(p), s), Dec(r, s))
    decreases p, 0
  {
    match p
    case Call(t) => if Dec(t, s).Got? { DecodedIsNormal(t, s); }
    case Block(slots) =>
      if r == Slow(p) {
        if Dec(r, s).Got? { DecodedIsNormal(r, s); }
      } else {
        SlotsRead(slots, s);
      }
    case Nest(parts) => MixAllReadTheSame(parts, r.fields, s);
  }

  lemma {:induction false} MixAllReadTheSame(ps: seq<Part>, rs: seq<Type>, s: seq<byte>)
    requires MixAll(ps, rs)
    ensures SameReads(SlowAll(ps), DecAll(SlowAll(ps), s), DecAll(rs, s))
    decreases ps, 0
  {
    if ps == [] {
    } else {
      hide Dec, Typed, Norm;
      var d := Dec(rs[0], s);
      MixReadsTheSame(ps[0], rs[0], s);
      if d.Got? { MixAllReadTheSame(ps[1..], rs[1..], d.rest); }
    }
  }

  // ---- Round trips ----

  lemma {:induction false} SlotsNorm(slots: seq<Slot>, vs: seq<Value>)
    requires AllTyped(SlotTypes(slots, true), vs)
    ensures NormAll(SlotTypes(slots, true), vs) == vs
  {
    if slots == [] {
    } else {
      SlotsNorm(slots[1..], vs[1..]);
    }
  }

  lemma {:induction false} NormAgain(t: Type, v: Value)
    requires Typed(t, v)
    ensures Typed(t, Norm(t, v)) && Norm(t, Norm(t, v)) == Norm(t, v)
    decreases t, 0
  {
    match t
    case Vector(element, _) => NormEachAgain(element, v.items);
    case Chain(node) => NormEachAgain(node, v.items);
    case Record(fields) => NormAllAgain(fields, v.items);
    case _ =>
  }

  lemma {:induction false} NormEachAgain(t: Type, vs: seq<Value>)
    requires EachTyped(t, vs)
    ensures EachTyped(t, NormEach(t, vs)) && NormEach(t, NormEach(t, vs)) == NormEach(t, vs)
    decreases t, 1, |vs|
  {
    if vs == [] {
    } else {
      hide Norm, Typed;
      NormAgain(t, vs[0]);
      NormEachAgain(t, vs[1..]);
    }
  }

  lemma {:induction false} NormAllAgain(ts: seq<Type>, vs: seq<Value>)
    requires AllTyped(ts, vs)
    ensures AllTyped(ts, NormAll(ts, vs)) && NormAll(ts, NormAll(ts, vs)) == NormAll(ts, vs)
    decreases ts, 0
  {
    if ts == [] {
    } else {
      hide Norm, Typed;
      NormAgain(ts[0], vs[0]);
      NormAllAgain(ts[1..], vs[1..]);
    }
  }

  /** A mix normalises no more than the calls do. */
  lemma {:induction false} MixNorm(p: Part, r: Type, v: Value)
    requires Mix(p, r) && Typed(r, v) && Typed(Slow(p), v)
    ensures Typed(Slow(p), Norm(r, v)) && Norm(Slow(p), Norm(r, v)) == Norm(Slow(p), v)
    ensures Norm(Slow(p), v) == v ==> Norm(r, v) == v
    decreases p, 0
  {
    match p
    case Call(t) => NormAgain(t, v);
    case Block(slots) => if r == Slow(p) { NormAgain(r, v); } else { SlotsNorm(slots, v.items); }
    case Nest(parts) => MixNormAll(parts, r.fields, v.items);
  }

  lemma {:induction false} MixNormAll(ps: seq<Part>, rs: seq<Type>, vs: seq<Value>)
    requires MixAll(ps, rs) && AllTyped(rs, vs) && AllTyped(SlowAll(ps), vs)
    ensures var ts := SlowAll(ps);
            && AllTyped(ts, NormAll(rs, vs)) && NormAll(ts, NormAll(rs, vs)) == NormAll(ts, vs)
            && (NormAll(ts, vs) == vs ==> NormAll(rs, vs) == vs)
    decreases ps, 0
  {
    if ps == [] {
    } else {
      hide Norm, Typed;
      MixNorm(ps[0], rs[0], vs[0]);
      MixNormAll(ps[1..], rs[1..], vs[1..]);
      var ts := SlowAll(ps);
      if NormAll(ts, vs) == vs {
        assert NormAll(ts, vs)[0] == Norm(ts[0], vs[0]) && NormAll(ts, vs)[1..] == NormAll(ts[1..], vs[1..]);
      }
    }
  }

  lemma {:induction false} SlotsNormal(slots: seq<Slot>, vs: seq<Value>, i: nat)
    requires AllTyped(SlotTypes(slots, false), vs) && NormAll(SlotTypes(slots, false), vs) == vs
    requires i < |slots| && slots[i] == Flag
    ensures IsFlag(vs, i)
  {
    var ts := SlotTypes(slots, false);
    assert NormAll(ts, vs)[0] == Norm(ts[0], vs[0]) && NormAll(ts, vs)[1..] == NormAll(ts[1..], vs[1..]);
    if i == 0 {
    } else {
      SlotsNormal(slots[1..], vs[1..], i - 1);
    }
  }

  lemma {:induction false} NormalIsCanonical(p: Part, r: Type, v: Value)
    requires Mix(p, r) && Typed(r, v) && Typed(Slow(p), v) && Norm(Slow(p), v) == v
    ensures Canonical(p, r, v)
    decreases p, 0
  {
    match p
    case Call(t) =>
    case Block(slots) =>
      forall i | 0 <= i < |slots| && slots[i] == Flag ensures IsFlag(v.items, i) {
        SlotsNormal(slots, v.items, i);
      }
    case Nest(parts) => NormalAreCanonical(parts, r.fields, v.items);
  }

  lemma {:induction false} NormalAreCanonical(ps: seq<Part>, rs: seq<Type>, vs: seq<Value>)
    requires MixAll(ps, rs) && AllTyped(rs, vs) && AllTyped(SlowAll(ps), vs) && NormAll(SlowAll(ps), vs) == vs
    ensures AllCanonical(ps, rs, vs)
    decreases ps, 0
  {
    if ps == [] {
    } else {
      hide Norm, Typed;
      var ts := SlowAll(ps);
      assert NormAll(ts, vs)[0] == Norm(ts[0], vs[0]) && NormAll(ts, vs)[1..] == NormAll(ts[1..], vs[1..]);
      NormalIsCanonical(ps[0], rs[0], vs[0]);
      NormalAreCanonical(ps[1..], rs[1..], vs[1..]);
    }
  }

  /**
    The round trip of a whole message.  Sender and receiver may each get a pointer for any
    of their blocks: the receiver has the sender's message, up to the truth of booleans
    and the text of absent strings, and has left what follows unread.  A message with
    nothing to normalise arrives as it was sent.
   */
  lemma MessageRoundTrip(p: Part, sender: Type, receiver: Type, v: Value, tail: seq<byte>)
    requires Mix(p, sender) && Mix(p, receiver)
    requires Typed(Slow(p), v) && Fits(Slow(p), v) && Typed(sender, v)
    ensures var d := Dec(receiver, Enc(sender, v) + tail);
            && d.Got? && d.rest == tail
            && Typed(Slow(p), d.value) && Norm(Slow(p), d.value) == Norm(Slow(p), v)
            && (Norm(Slow(p), v) == v ==> d.value == v)
  {
    var t, s := Slow(p), Enc(sender, v) + tail;
    MixTyped(p, sender, v);
    DecodesEncoded(sender, v, tail);
    MixReadsTheSame(p, sender, s);
    MixReadsTheSame(p, receiver, s);
    MixNorm(p, sender, v);
    if Norm(t, v) == v {
      MixTyped(p, receiver, v);
      NormalIsCanonical(p, sender, v);
      NormalIsCanonical(p, receiver, v);
      MixWritesTheSame(p, sender, v);
      MixWritesTheSame(p, receiver, v);
      DecodesEncoded(receiver, v, tail);
      MixNorm(p, receiver, v);
    }
  }
}
