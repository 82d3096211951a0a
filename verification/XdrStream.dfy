/**
  The stream that the XDR routines share.  Encoding appends to it while there is room,
  decoding takes bytes off its front, and a routine that fails stops at once.
 */
module XdrStreams {
  import opened Words
  import opened Xdr

  class XdrStream {
    var data: seq<byte>     // what was written, or what was not read yet
    var room: nat           // how many bytes can still be written
    var grants: seq<bool>   // whether the next requests for a direct pointer succeed

    constructor (data: seq<byte>, room: nat, grants: seq<bool>)
      ensures this.data == data && this.room == room && this.grants == grants
    {
      this.data, this.room, this.grants := data, room, grants;
    }

    /** XDR_INLINE: may refuse at will, and refuses when there are not enough bytes. */
    method Inline(available: nat, n: nat) returns (granted: bool)
      modifies this`grants
      ensures granted ==> n <= available
      ensures granted <==> old(grants) != [] && old(grants)[0] && n <= available
      ensures grants == if old(grants) == [] then [] else old(grants)[1..]
    {
      granted := grants != [] && grants[0] && n <= available;
      if grants != [] { grants := grants[1..]; }
    }

    // ---- Encoding ----

    /** How an attempt to write `enc` ended; `legal` is false when a limit forbids it. */
    ghost predicate Wrote(before: seq<byte>, roomBefore: nat, ok: bool, legal: bool, enc: seq<byte>)
      reads this
    {
      && (ok <==> legal && |enc| <= roomBefore)
      && (ok ==> data == before + enc && room + |enc| == roomBefore)
      && before <= data
    }

    method PutUnit(n: int) returns (ok: bool)
      modifies this`data, this`room
      ensures Wrote(old(data), old(room), ok, true, ToBe32(n))
    {
      ok := 4 <= room;
      if ok { data, room := data + ToBe32(n), room - 4; }
    }

    /** xdr_opaque: the bytes, then zeros up to a whole unit. */
    method PutOpaque(s: seq<byte>) returns (ok: bool)
      modifies this`data, this`room
      ensures Wrote(old(data), old(room), ok, true, s + seq(Pad(|s|), _ => 0))
    {
      var pad := seq(Pad(|s|), _ => 0);
      if room < |s| { return false; }
      data, room := data + s, room - |s|;
      if room < |pad| { return false; }
      data, room := data + pad, room - |pad|;
      ok := true;
    }

    method PutText(s: seq<byte>, limit: Uint) returns (ok: bool)
      modifies this`data, this`room
      ensures Wrote(old(data), old(room), ok, |s| <= limit, EncText(s))
    {
      hide ToBe32;
      ok := PutUnit(|s|);
      if !ok || |s| > limit { return false; }
      ok := PutOpaque(s);
    }

    method Encode(t: Type, v: Value) returns (ok: bool)
      requires Typed(t, v)
      modifies this`data, this`room
      ensures Wrote(old(data), old(room), ok, Fits(t, v), Enc(t, v))
      decreases t, 0
    {
      hide ToBe32, EncText;
      match t
      case Text(limit) => ok := PutText(v.s, limit);
      case OptText =>
        ok := PutUnit(v.valid);
        if ok && v.valid == 1 { ok := PutText(v.text, UINT32 - 1); }
      case Vector(element, limit) =>
        ok := PutUnit(|v.items|);
        if !ok || |v.items| > limit { return false; }
        ok := EncodeEach(element, v.items);
      case Chain(node) => ok := EncodeChain(node, v.items);
      case Record(fields) => ok := EncodeAll(fields, v.items);
      case Bool => ok := PutUnit(Truth(v.n));
      case Hyper =>
        ok := PutUnit(v.n / UINT32);
        if !ok { return; }
        ok := PutUnit(v.n);
      case _ => ok := PutUnit(v.n);
    }

    /** The elements of an array. */
    method EncodeEach(t: Type, vs: seq<Value>) returns (ok: bool)
      requires EachTyped(t, vs)
      modifies this`data, this`room
      ensures Wrote(old(data), old(room), ok, EachFits(t, vs), EncEach(t, vs, []))
      decreases t, 1, |vs|
    {
      hide Enc, Fits, Typed;
      var i := 0;
      while i < |vs|
        invariant 0 <= i <= |vs| && EachTyped(t, vs[i..])
        invariant old(data) <= data && |data| + room == |old(data)| + old(room)
        invariant old(data) + EncEach(t, vs, []) == data + EncEach(t, vs[i..], [])
        invariant EachFits(t, vs) <==> EachFits(t, vs[i..])
      {
        ghost var rest := vs[i..];
        assert rest[0] == vs[i] && rest[1..] == vs[i + 1..];
        ok := Encode(t, vs[i]);
        if !ok { return; }
        i := i + 1;
      }
      ok := true;
    }

    /** A pointer to an entry: whether there is one, the entry, and the pointer it ends in. */
    method EncodeChain(t: Type, vs: seq<Value>) returns (ok: bool)
      requires EachTyped(t, vs)
      modifies this`data, this`room
      ensures Wrote(old(data), old(room), ok, EachFits(t, vs), EncEach(t, vs, ToBe32(1)) + ToBe32(0))
      decreases t, 1, |vs|
    {
      hide Enc, Fits, Typed, ToBe32;
      if vs == [] {
        ok := PutUnit(0);
      } else {
        ChainStep(t, vs);
        hide EncEach;
        ok := PutUnit(1);
        if !ok { return; }
        ok := Encode(t, vs[0]);
        if !ok { return; }
        ok := EncodeChain(t, vs[1..]);
      }
    }

    /** The fields of a record. */
    method EncodeAll(ts: seq<Type>, vs: seq<Value>) returns (ok: bool)
      requires AllTyped(ts, vs)
      modifies this`data, this`room
      ensures Wrote(old(data), old(room), ok, AllFits(ts, vs), EncAll(ts, vs))
      decreases ts, 0
    {
      hide Enc, Fits, Typed;
      if ts == [] { return true; }
      ok := Encode(ts[0], vs[0]);
      if !ok { return; }
      ok := EncodeAll(ts[1..], vs[1..]);
    }

    // ---- Decoding ----

    /** How an attempt to read ended that should have given `d`. */
    ghost predicate Took<T>(d: Decoded<T>, ok: bool, value: T)
      reads this
    {
      (ok <==> d.Got?) && (ok ==> d == Got(value, data))
    }

    method GetUnit() returns (ok: bool, n: Uint)
      modifies this`data
      ensures Took(DecUnit(old(data)), ok, n)
    {
      if |data| < 4 { return false, 0; }
      FromBe32Below(data[..4]);
      ok, n := true, FromBe32(data[..4]);
      data := data[4..];
    }

    method GetText(limit: Uint) returns (ok: bool, s: seq<byte>)
      modifies this`data
      ensures Took(DecText(limit, old(data)), ok, s)
    {
      hide DecUnit, CutAtNul;
      var n;
      ok, n := GetUnit();
      if !ok || n > limit || |data| < n { return false, []; }
      s := data[..n];
      data := data[n..];
      if |data| < Pad(n) { return false, []; }
      data := data[Pad(n)..];
      s := CutAtNul(s);
    }

    method GetNum(t: Type) returns (ok: bool, n: int)
      requires t.Int? || t.UInt? || t.Hyper? || t.Bool?
      modifies this`data
      ensures Took(DecNum(t, old(data)), ok, n)
    {
      hide DecUnit;
      var word: Uint;
      ok, word := GetUnit();
      n := word;
      if !ok { return; }
      match t
      case Int => n := AsInt32(word);
      case UInt(width) => n := word % Modulus(width);
      case Bool => n := Truth(word);
      case Hyper =>
        var low;
        ok, low := GetUnit();
        n := word * UINT32 + low;
    }

    method Decode(t: Type) returns (ok: bool, v: Value)
      modifies this`data
      ensures Took(Dec(t, old(data)), ok, v)
      decreases t, 0
    {
      hide DecUnit, DecText, DecNum;
      var vs, s, n;
      match t
      case Text(limit) =>
        ok, s := GetText(limit);
        v := Str(s);
      case OptText =>
        ok, n := GetUnit();
        v := Opt(AsInt32(n), []);
        if ok && n == 1 {
          ok, s := GetText(UINT32 - 1);
          v := Opt(1, s);
        }
      case Vector(element, limit) =>
        ok, n := GetUnit();
        v := Many([]);
        if !ok || n > limit { return false, v; }
        ok, vs := DecodeEach(element, n);
        v := Many(vs);
      case Chain(node) =>
        ok, vs := DecodeChain(node);
        v := Many(vs);
      case Record(fields) =>
        ok, vs := DecodeAll(fields);
        v := Many(vs);
      case _ =>
        var num;
        ok, num := GetNum(t);
        v := Num(num);
    }

    method DecodeEach(t: Type, n: nat) returns (ok: bool, vs: seq<Value>)
      modifies this`data
      ensures Took(DecEach(t, n, old(data)), ok, vs)
      decreases t, 1, n
    {
      hide Dec;
      vs := [];
      AfterNone(DecEach(t, n, data));
      var i: nat := 0;
      while i < n
        invariant i <= n
        invariant DecEach(t, n, old(data)) == After(vs, DecEach(t, n - i, data))
      {
        var v;
        ok, v := Decode(t);
        if !ok { return; }
        AfterOne(vs, v, DecEach(t, n - i - 1, data));
        vs := vs + [v];
        i := i + 1;
      }
      assert vs + [] == vs;
      ok := true;
    }

    method DecodeChain(t: Type) returns (ok: bool, vs: seq<Value>)
      modifies this`data
      ensures Took(DecChain(t, old(data)), ok, vs)
      decreases t, 1, |data|
    {
      hide Dec, DecUnit;
      var more, v;
      vs := [];
      ok, more := GetUnit();
      if !ok || more == 0 { return; }
      ok, v := Decode(t);
      if !ok { return; }
      ok, vs := DecodeChain(t);
      vs := [v] + vs;
    }

    method DecodeAll(ts: seq<Type>) returns (ok: bool, vs: seq<Value>)
      modifies this`data
      ensures Took(DecAll(ts, old(data)), ok, vs)
      decreases ts, 0
    {
      hide Dec;
      vs := [];
      if ts == [] { return true, []; }
      var v;
      ok, v := Decode(ts[0]);
      if !ok { return; }
      ok, vs := DecodeAll(ts[1..]);
      vs := [v] + vs;
    }
  }

  lemma ChainStep(t: Type, vs: seq<Value>)
    requires EachTyped(t, vs) && vs != []
    ensures EncEach(t, vs, ToBe32(1)) + ToBe32(0)
         == ToBe32(1) + Enc(t, vs[0]) + (EncEach(t, vs[1..], ToBe32(1)) + ToBe32(0))
  {
    hide Enc, Typed, ToBe32;
  }

  /** The elements read so far and what the rest decodes to. */
  function After(vs: seq<Value>, d: Decoded<seq<Value>>): Decoded<seq<Value>> {
    match d
    case Fail => Fail
    case Got(ws, rest) => Got(vs + ws, rest)
  }

  lemma AfterNone(d: Decoded<seq<Value>>)
    ensures After([], d) == d
  {
    if d.Got? { assert [] + d.value == d.value; }
  }

  lemma AfterOne(vs: seq<Value>, v: Value, d: Decoded<seq<Value>>)
    ensures After(vs, Cons(v, d)) == After(vs + [v], d)
  {
    if d.Got? { assert vs + ([v] + d.value) == vs + [v] + d.value; }
  }
}
