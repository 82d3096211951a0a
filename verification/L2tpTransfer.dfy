/**
  Running a message routine on a stream: each block asks for a pointer and falls back to
  the calls when it gets none.
 */
module L2tpTransfer {
  import opened Words
  import opened Xdr
  import opened XdrStreams
  import opened L2tpRoutines

  lemma DirectStep(slots: seq<Slot>, vs: seq<Value>)
    requires AllTyped(SlotTypes(slots, true), vs) && slots != []
    ensures vs[0].Num? && AllTyped(SlotTypes(slots[1..], true), vs[1..])
    ensures EncAll(SlotTypes(slots, true), vs)
         == ToBe32(vs[0].n) + EncAll(SlotTypes(slots[1..], true), vs[1..])
  {
    var ts := SlotTypes(slots, true);
    assert ts[0] == Int && ts[1..] == SlotTypes(slots[1..], true);
  }

  /** The IXDR_PUT_LONG and IXDR_PUT_BOOL calls of one block, into memory the stream gave out. */
  method PutDirect(x: XdrStream, slots: seq<Slot>, vs: seq<Value>)
    requires AllTyped(SlotTypes(slots, true), vs)
    requires 4 * |slots| <= x.room
    modifies x`data, x`room
    ensures x.data == old(x.data) + EncAll(SlotTypes(slots, true), vs)
    ensures x.room + 4 * |slots| == old(x.room)
  {
    var i := 0;
    while i < |slots|
      invariant 0 <= i <= |slots| && x.room + 4 * i == old(x.room)
      invariant AllTyped(SlotTypes(slots[i..], true), vs[i..])
      invariant x.data + EncAll(SlotTypes(slots[i..], true), vs[i..])
             == old(x.data) + EncAll(SlotTypes(slots, true), vs)
    {
      hide ToBe32, EncAll, AllTyped;
      DirectStep(slots[i..], vs[i..]);
      assert slots[i..][1..] == slots[i + 1..] && vs[i..][1..] == vs[i + 1..];
      x.data, x.room := x.data + ToBe32(vs[i].n), x.room - 4;
      i := i + 1;
    }
  }

  method EncodeRoutine(x: XdrStream, p: Part, v: Value) returns (ok: bool, ghost mix: Type)
    requires Typed(Slow(p), v)
    modifies x
    ensures Mix(p, mix) && Typed(mix, v)
    ensures x.Wrote(old(x.data), old(x.room), ok, Fits(Slow(p), v), Enc(mix, v))
    ensures old(x.grants) == [] ==> x.grants == [] && mix == Slow(p)
    decreases p, 0
  {
    mix := Slow(p);
    SlowIsMix(p);
    match p
    case Call(t) => ok := x.Encode(t, v);
    case Block(slots) =>
      ghost var fast := Record(SlotTypes(slots, true));
      assert Mix(p, fast);
      MixTyped(p, fast, v);
      SlotsTyped(slots, true, v.items);
      var direct := x.Inline(x.room, 4 * |slots|);
      if direct {
        PutDirect(x, slots, v.items);
        ok, mix := true, fast;
      } else {
        ok := x.Encode(Slow(p), v);
      }
    case Nest(parts) =>
      ghost var mixes;
      ok, mixes := EncodeRoutines(x, parts, v.items);
      mix := Record(mixes);
  }

  method EncodeRoutines(x: XdrStream, ps: seq<Part>, vs: seq<Value>) returns (ok: bool, ghost mixes: seq<Type>)
    requires AllTyped(SlowAll(ps), vs)
    modifies x
    ensures MixAll(ps, mixes) && AllTyped(mixes, vs)
    ensures x.Wrote(old(x.data), old(x.room), ok, AllFits(SlowAll(ps), vs), EncAll(mixes, vs))
    ensures old(x.grants) == [] ==> x.grants == [] && mixes == SlowAll(ps)
    decreases ps, 0
  {
    hide Enc, Fits, Typed, Mix;
    mixes := SlowAll(ps);
    SlowAreMix(ps);
    if ps == [] { return true, mixes; }
    ghost var mix, rest;
    ok, mix := EncodeRoutine(x, ps[0], vs[0]);
    if !ok {
      MixTyped(ps[0], mix, vs[0]);
      return;
    }
    ok, rest := EncodeRoutines(x, ps[1..], vs[1..]);
    mixes := [mix] + rest;
  }

  /** The IXDR_GET_LONG and IXDR_GET_BOOL calls of one block. */
  method GetDirect(x: XdrStream, slots: seq<Slot>) returns (vs: seq<Value>)
    requires 4 * |slots| <= |x.data|
    modifies x`data
    ensures DecAll(SlotTypes(slots, true), old(x.data)) == Got(vs, x.data)
  {
    vs := [];
    AfterNone(DecAll(SlotTypes(slots, true), x.data));
    var i := 0;
    while i < |slots|
      invariant 0 <= i <= |slots| && 4 * (|slots| - i) <= |x.data|
      invariant DecAll(SlotTypes(slots, true), old(x.data)) == After(vs, DecAll(SlotTypes(slots[i..], true), x.data))
    {
      hide ToBe32, DecUnit, DecAll;
      ReadStep(slots[i..], x.data);
      assert slots[i..][1..] == slots[i + 1..];
      var ok, word := x.GetUnit();
      var v := Num(AsInt32(word));
      AfterOne(vs, v, DecAll(SlotTypes(slots[i + 1..], true), x.data));
      vs := vs + [v];
      i := i + 1;
    }
    assert vs + [] == vs;
  }

  lemma ReadStep(slots: seq<Slot>, s: seq<byte>)
    requires slots != [] && 4 <= |s|
    ensures DecUnit(s).Got? && |DecUnit(s).rest| + 4 == |s|
    ensures DecAll(SlotTypes(slots, true), s)
         == Cons(Num(AsInt32(DecUnit(s).value)), DecAll(SlotTypes(slots[1..], true), DecUnit(s).rest))
  {
    var ts := SlotTypes(slots, true);
    assert ts[0] == Int && ts[1..] == SlotTypes(slots[1..], true);
    hide AsInt32;
  }

  /** The bytes read are those of some mix; what the message says does not depend on which. */
  method DecodeRoutine(x: XdrStream, p: Part) returns (ok: bool, v: Value, ghost mix: Type)
    modifies x
    ensures Mix(p, mix) && x.Took(Dec(mix, old(x.data)), ok, v)
    ensures ok <==> Dec(Slow(p), old(x.data)).Got?
    ensures ok ==> Typed(Slow(p), v) && Dec(Slow(p), old(x.data)) == Got(Norm(Slow(p), v), x.data)
    ensures old(x.grants) == [] ==> x.grants == [] && mix == Slow(p)
    decreases p, 0
  {
    mix := Slow(p);
    SlowIsMix(p);
    ghost var s := x.data;
    match p {
      case Call(t) => ok, v := x.Decode(t);
      case Block(slots) =>
        ghost var fast := Record(SlotTypes(slots, true));
        assert Mix(p, fast);
        var direct := x.Inline(|x.data|, 4 * |slots|);
        if direct {
          var vs := GetDirect(x, slots);
          ok, v, mix := true, Many(vs), fast;
        } else {
          ok, v := x.Decode(Slow(p));
        }
      case Nest(parts) =>
        ghost var mixes;
        var vs;
        ok, vs, mixes := DecodeRoutines(x, parts);
        v, mix := Many(vs), Record(mixes);
    }
    MixReadsTheSame(p, mix, s);
  }

  method DecodeRoutines(x: XdrStream, ps: seq<Part>) returns (ok: bool, vs: seq<Value>, ghost mixes: seq<Type>)
    modifies x
    ensures MixAll(ps, mixes) && x.Took(DecAll(mixes, old(x.data)), ok, vs)
    ensures old(x.grants) == [] ==> x.grants == [] && mixes == SlowAll(ps)
    decreases ps, 0
  {
    hide Dec, Mix, Typed, Norm;
    mixes, vs := SlowAll(ps), [];
    SlowAreMix(ps);
    if ps == [] { return true, [], mixes; }
    ghost var mix, rest;
    var v;
    ok, v, mix := DecodeRoutine(x, ps[0]);
    if !ok { return; }
    ok, vs, rest := DecodeRoutines(x, ps[1..]);
    vs, mixes := [v] + vs, [mix] + rest;
  }
}
