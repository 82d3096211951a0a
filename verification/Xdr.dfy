/**
  External data representation: the encodings of RFC 4506 that the message routines
  are built from, and the values a C program holds in the fields they fill.
 */
module Xdr {
  import opened Words

  type Uint = n: int | 0 <= n < UINT32

  datatype Width = W8 | W16 | W32

  /** How many values an unsigned field of this width has. */
  function Modulus(width: Width): (m: nat)
    ensures 0 < m <= UINT32
  {
    match width
    case W8 => 0x100
    case W16 => 0x1_0000
    case W32 => UINT32
  }

  /** A decoder's answer: the value and what it left unread. */
  datatype Decoded<+T> = Fail | Got(value: T, rest: seq<byte>)

  datatype Type =
    | Int                                  // xdr_int and xdr_enum: section 4.1 and 4.3
    | UInt(width: Width)                   // xdr_uint8_t, xdr_uint16_t, xdr_uint32_t: section 4.2
    | Hyper                                // xdr_uint64_t: section 4.5
    | Bool                                 // xdr_bool: section 4.4
    | Text(limit: Uint)                    // xdr_string: section 4.11
    | OptText                              // xdr_optstring, a union: section 4.15
    | Vector(element: Type, limit: Uint)   // xdr_array: section 4.13
    | Chain(node: Type)                    // xdr_pointer to an entry that ends in one: section 4.19
    | Record(fields: seq<Type>)

  datatype Value =
    | Num(n: int)
    | Str(s: seq<byte>)
    | Opt(valid: int, text: seq<byte>)
    | Many(items: seq<Value>)

  // ---- What fields can hold ----

  predicate IsInt(n: int) {
    -UINT32 / 2 <= n < UINT32 / 2
  }

  predicate IsText(s: seq<byte>) {
    |s| < UINT32 && 0 !in s
  }

  /** The value is one that a C field of the type can hold. */
  predicate Typed(t: Type, v: Value)
    decreases t, 0
  {
    match t
    case Int => v.Num? && IsInt(v.n)
    case Bool => v.Num? && IsInt(v.n)
    case UInt(width) => v.Num? && 0 <= v.n < Modulus(width)
    case Hyper => v.Num? && 0 <= v.n < UINT32 * UINT32
    case Text(_) => v.Str? && IsText(v.s)
    case OptText => v.Opt? && IsInt(v.valid) && IsText(v.text)
    case Vector(element, _) => v.Many? && |v.items| < UINT32 && EachTyped(element, v.items)
    case Chain(node) => v.Many? && EachTyped(node, v.items)
    case Record(fields) => v.Many? && AllTyped(fields, v.items)
  }

  predicate EachTyped(t: Type, vs: seq<Value>)
    decreases t, 1, |vs|
  {
    vs == [] || (Typed(t, vs[0]) && EachTyped(t, vs[1..]))
  }

  predicate AllTyped(ts: seq<Type>, vs: seq<Value>)
    decreases ts, 0
  {
    |ts| == |vs| && (ts == [] || (Typed(ts[0], vs[0]) && AllTyped(ts[1..], vs[1..])))
  }

  /** No string and no array is longer than its declaration allows. */
  predicate Fits(t: Type, v: Value)
    requires Typed(t, v)
    decreases t, 0
  {
    match t
    case Text(limit) => |v.s| <= limit
    case Vector(element, limit) => |v.items| <= limit && EachFits(element, v.items)
    case Chain(node) => EachFits(node, v.items)
    case Record(fields) => AllFits(fields, v.items)
    case _ => true
  }

  predicate EachFits(t: Type, vs: seq<Value>)
    requires EachTyped(t, vs)
    decreases t, 1, |vs|
  {
    vs == [] || (Fits(t, vs[0]) && EachFits(t, vs[1..]))
  }

  predicate AllFits(ts: seq<Type>, vs: seq<Value>)
    requires AllTyped(ts, vs)
    decreases ts, 0
  {
    ts == [] || (Fits(ts[0], vs[0]) && AllFits(ts[1..], vs[1..]))
  }

  function Truth(n: int): int {
    if n == 0 then 0 else 1
  }

  /** What is left of a value after one transfer: booleans become 0 or 1, absent strings empty. */
  function Norm(t: Type, v: Value): Value
    requires Typed(t, v)
    decreases t, 0
  {
    match t
    case Bool => Num(Truth(v.n))
    case OptText => if v.valid == 1 then v else Opt(v.valid, [])
    case Vector(element, _) => Many(NormEach(element, v.items))
    case Chain(node) => Many(NormEach(node, v.items))
    case Record(fields) => Many(NormAll(fields, v.items))
    case _ => v
  }

  function NormEach(t: Type, vs: seq<Value>): (ws: seq<Value>)
    requires EachTyped(t, vs)
    ensures |ws| == |vs|
    decreases t, 1, |vs|
  {
    if vs == [] then [] else [Norm(t, vs[0])] + NormEach(t, vs[1..])
  }

  function NormAll(ts: seq<Type>, vs: seq<Value>): (ws: seq<Value>)
    requires AllTyped(ts, vs)
    ensures |ws| == |vs|
    decreases ts, 0
  {
    if ts == [] then [] else [Norm(ts[0], vs[0])] + NormAll(ts[1..], vs[1..])
  }

  // ---- Encoding ----

  /** Bytes that fill a string up to a whole number of units. */
  function Pad(n: nat): (k: nat)
    ensures k < 4 && (n + k) % 4 == 0
  {
    (4 - n % 4) % 4
  }

  function EncText(s: seq<byte>): seq<byte> {
    ToBe32(|s|) + s + seq(Pad(|s|), _ => 0)
  }

  function Enc(t: Type, v: Value): seq<byte>
    requires Typed(t, v)
    decreases t, 0
  {
    match t
    case Int => ToBe32(v.n)
    case UInt(_) => ToBe32(v.n)
    case Hyper => ToBe32(v.n / UINT32) + ToBe32(v.n)
    case Bool => ToBe32(Truth(v.n))
    case Text(_) => EncText(v.s)
    case OptText => ToBe32(v.valid) + (if v.valid == 1 then EncText(v.text) else [])
    case Vector(element, _) => ToBe32(|v.items|) + EncEach(element, v.items, [])
    case Chain(node) => EncEach(node, v.items, ToBe32(1)) + ToBe32(0)
    case Record(fields) => EncAll(fields, v.items)
  }

  /** Elements one after the other, each announced by `mark`. */
  function EncEach(t: Type, vs: seq<Value>, mark: seq<byte>): seq<byte>
    requires EachTyped(t, vs)
    decreases t, 1, |vs|
  {
    if vs == [] then [] else mark + Enc(t, vs[0]) + EncEach(t, vs[1..], mark)
  }

  function EncAll(ts: seq<Type>, vs: seq<Value>): seq<byte>
    requires AllTyped(ts, vs)
    decreases ts, 0
  {
    if ts == [] then [] else Enc(ts[0], vs[0]) + EncAll(ts[1..], vs[1..])
  }

  // ---- Decoding ----

  function DecUnit(s: seq<byte>): (d: Decoded<Uint>)
    ensures d.Got? ==> |d.rest| + 4 == |s|
  {
    if |s| < 4 then Fail else
      FromBe32Below(s[..4]);
      Got(FromBe32(s[..4]), s[4..])
  }

  function CutAtNul(s: seq<byte>): seq<byte> {
    if s == [] || s[0] == 0 then [] else [s[0]] + CutAtNul(s[1..])
  }

  function DecText(limit: Uint, s: seq<byte>): (d: Decoded<seq<byte>>)
    ensures d.Got? ==> |d.rest| <= |s|
  {
    match DecUnit(s)
    case Fail => Fail
    case Got(n, rest) =>
      if n > limit || |rest| < n + Pad(n) then Fail else Got(CutAtNul(rest[..n]), rest[n + Pad(n)..])
  }

  function DecNum(t: Type, s: seq<byte>): (d: Decoded<int>)
    requires t.Int? || t.UInt? || t.Hyper? || t.Bool?
    ensures d.Got? ==> |d.rest| <= |s|
  {
    match DecUnit(s)
    case Fail => Fail
    case Got(n, rest) =>
      match t
      case Int => Got(AsInt32(n), rest)
      case UInt(width) => Got(n % Modulus(width), rest)
      case Bool => Got(Truth(n), rest)
      case Hyper =>
        match DecUnit(rest)
        case Fail => Fail
        case Got(low, rest') => Got(n * UINT32 + low, rest')
  }

  function DecOpt(s: seq<byte>): (d: Decoded<Value>)
    ensures d.Got? ==> |d.rest| <= |s|
  {
    match DecUnit(s)
    case Fail => Fail
    case Got(n, rest) =>
      if n != 1 then Got(Opt(AsInt32(n), []), rest) else
        match DecText(UINT32 - 1, rest)
        case Fail => Fail
        case Got(text, rest') => Got(Opt(1, text), rest')
  }

  function Dec(t: Type, s: seq<byte>): (d: Decoded<Value>)
    ensures d.Got? ==> |d.rest| <= |s|
    decreases t, 0
  {
    match t
    case Text(limit) => (match DecText(limit, s) case Fail => Fail case Got(text, rest) => Got(Str(text), rest))
    case OptText => DecOpt(s)
    case Vector(element, limit) =>
      (match DecUnit(s)
       case Fail => Fail
       case Got(n, rest) => if n > limit then Fail else AsMany(DecEach(element, n, rest)))
    case Chain(node) => AsMany(DecChain(node, s))
    case Record(fields) => AsMany(DecAll(fields, s))
    case _ => (match DecNum(t, s) case Fail => Fail case Got(n, rest) => Got(Num(n), rest))
  }

  function AsMany(d: Decoded<seq<Value>>): (m: Decoded<Value>)
    ensures d.Got? <==> m.Got?
    ensures d.Got? ==> m.rest == d.rest
  {
    match d
    case Fail => Fail
    case Got(vs, rest) => Got(Many(vs), rest)
  }

  /** A value and what the rest of its sequence decodes to. */
  function Cons(v: Value, d: Decoded<seq<Value>>): (c: Decoded<seq<Value>>)
    ensures d.Got? <==> c.Got?
    ensures d.Got? ==> c.rest == d.rest
  {
    match d
    case Fail => Fail
    case Got(vs, rest) => Got([v] + vs, rest)
  }

  function DecEach(t: Type, n: nat, s: seq<byte>): (d: Decoded<seq<Value>>)
    ensures d.Got? ==> |d.rest| <= |s|
    decreases t, 1, n
  {
    if n == 0 then Got([], s) else
      match Dec(t, s)
      case Fail => Fail
      case Got(v, rest) => Cons(v, DecEach(t, n - 1, rest))
  }

  /** Entries up to the pointer that is absent. */
  function DecChain(t: Type, s: seq<byte>): (d: Decoded<seq<Value>>)
    ensures d.Got? ==> |d.rest| <= |s|
    decreases t, 1, |s|
  {
    match DecUnit(s)
    case Fail => Fail
    case Got(more, rest) =>
      if more == 0 then Got([], rest) else
        match Dec(t, rest)
        case Fail => Fail
        case Got(v, rest') => Cons(v, DecChain(t, rest'))
  }

  function DecAll(ts: seq<Type>, s: seq<byte>): (d: Decoded<seq<Value>>)
    ensures d.Got? ==> |d.rest| <= |s|
    decreases ts, 0
  {
    if ts == [] then Got([], s) else
      match Dec(ts[0], s)
      case Fail => Fail
      case Got(v, rest) => Cons(v, DecAll(ts[1..], rest))
  }

  // ---- Units and strings ----

  lemma UnitBack(n: int, tail: seq<byte>)
    ensures DecUnit(ToBe32(n) + tail) == Got(n % UINT32, tail)
  {
    var s := ToBe32(n) + tail;
    assert s[..4] == ToBe32(n) && s[4..] == tail;
    Be32RoundTrip(n);
  }

  lemma IntBack(n: int)
    requires IsInt(n)
    ensures AsInt32(n % UINT32) == n
  {
    assert n % UINT32 == if n < 0 then n + UINT32 else n;
  }

  lemma {:induction false} CutIsText(s: seq<byte>)
    ensures 0 !in CutAtNul(s) && |CutAtNul(s)| <= |s|
    ensures CutAtNul(s) == s <==> 0 !in s
    ensures CutAtNul(s) <= s && (|CutAtNul(s)| < |s| ==> s[|CutAtNul(s)|] == 0)
  {
    if s == [] || s[0] == 0 {
    } else {
      CutIsText(s[1..]);
      var cut := CutAtNul(s[1..]);
      assert s == [s[0]] + s[1..] && CutAtNul(s) == [s[0]] + cut;
      hide CutAtNul;
      assert s[..1 + |cut|] == [s[0]] + s[1..][..|cut|];
    }
  }

  lemma TextBack(limit: Uint, s: seq<byte>, tail: seq<byte>)
    requires IsText(s) && |s| <= limit
    ensures DecText(limit, EncText(s) + tail) == Got(s, tail)
  {
    hide ToBe32, DecUnit, CutAtNul;
    var pad := seq(Pad(|s|), _ => 0 as byte);
    var after := s + pad + tail;
    assert EncText(s) + tail == ToBe32(|s|) + after;
    UnitBack(|s|, after);
    assert |s| % UINT32 == |s|;
    TailSplit(s, pad, tail);
    CutIsText(s);
  }

  lemma TailSplit(s: seq<byte>, pad: seq<byte>, tail: seq<byte>)
    ensures var after := s + pad + tail;
            after[..|s|] == s && after[|s| + |pad|..] == tail
  {
  }

  lemma NumBack(t: Type, v: Value, tail: seq<byte>)
    requires t.Int? || t.UInt? || t.Hyper? || t.Bool?
    requires Typed(t, v)
    ensures DecNum(t, Enc(t, v) + tail) == Got(Norm(t, v).n, tail)
  {
    hide ToBe32, DecUnit, AsInt32, EncText, EncEach, EncAll, NormEach, NormAll, EachTyped, AllTyped, IsText;
    if t.Hyper? {
      HyperBack(v, tail);
    } else if t.Bool? {
      UnitBack(Truth(v.n), tail);
    } else if t.Int? {
      UnitBack(v.n, tail);
      IntBack(v.n);
    } else {
      UnitBack(v.n, tail);
      UintBack(v.n, t.width);
      hide Modulus;
    }
  }

  lemma UintBack(n: int, width: Width)
    requires 0 <= n < Modulus(width)
    ensures n % UINT32 == n && n % Modulus(width) == n
  {
  }

  lemma HyperBack(v: Value, tail: seq<byte>)
    requires Typed(Hyper, v)
    ensures DecNum(Hyper, Enc(Hyper, v) + tail) == Got(v.n, tail)
  {
    hide ToBe32, DecUnit;
    var high, low := v.n / UINT32, v.n % UINT32;
    assert Enc(Hyper, v) + tail == ToBe32(high) + (ToBe32(v.n) + tail);
    UnitBack(high, ToBe32(v.n) + tail);
    UnitBack(v.n, tail);
    hide Enc, Typed;
    assert high % UINT32 == high && v.n == high * UINT32 + low;
  }

  lemma OptBack(v: Value, tail: seq<byte>)
    requires Typed(OptText, v)
    ensures DecOpt(Enc(OptText, v) + tail) == Got(Norm(OptText, v), tail)
  {
    hide ToBe32, DecUnit, AsInt32, DecText, EncText;
    var body := if v.valid == 1 then EncText(v.text) else [];
    assert Enc(OptText, v) + tail == ToBe32(v.valid) + (body + tail);
    UnitBack(v.valid, body + tail);
    IntBack(v.valid);
    if v.valid == 1 { TextBack(UINT32 - 1, v.text, tail); } else { assert body + tail == tail; NotOne(v.valid); }
  }

  lemma NotOne(n: int)
    requires IsInt(n) && n != 1
    ensures n % UINT32 != 1
  {
  }

  // ---- Decoding what was encoded ----

  /**
    Decoding what was encoded returns the value, up to booleans and absent strings, and
    leaves whatever follows it unread.
   */
  lemma {:induction false} DecodesEncoded(t: Type, v: Value, tail: seq<byte>)
    requires Typed(t, v) && Fits(t, v)
    ensures Dec(t, Enc(t, v) + tail) == Got(Norm(t, v), tail)
    decreases t, 0
  {
    hide ToBe32, DecUnit, DecText, EncText, DecNum, DecOpt, IsText;
    match t
    case Text(limit) => TextBack(limit, v.s, tail);
    case OptText => OptBack(v, tail);
    case Vector(element, limit) =>
      var body := EncEach(element, v.items, []);
      assert Enc(t, v) + tail == ToBe32(|v.items|) + (body + tail);
      UnitBack(|v.items|, body + tail);
      EachDecoded(element, v.items, tail);
    case Chain(node) =>
      assert Enc(t, v) + tail == EncEach(node, v.items, ToBe32(1)) + (ToBe32(0) + tail);
      ChainDecoded(node, v.items, tail);
    case Record(fields) => AllDecoded(fields, v.items, tail);
    case _ => NumBack(t, v, tail);
  }

  lemma {:induction false} EachDecoded(t: Type, vs: seq<Value>, tail: seq<byte>)
    requires EachTyped(t, vs) && EachFits(t, vs)
    ensures DecEach(t, |vs|, EncEach(t, vs, []) + tail) == Got(NormEach(t, vs), tail)
    decreases t, 1, |vs|
  {
    hide Enc, Dec, Norm, Typed, Fits;
    if vs == [] {
      assert [] + tail == tail;
    } else {
      var more := EncEach(t, vs[1..], []);
      assert EncEach(t, vs, []) + tail == Enc(t, vs[0]) + (more + tail);
      DecodesEncoded(t, vs[0], more + tail);
      EachDecoded(t, vs[1..], tail);
    }
  }

  lemma {:induction false} ChainDecoded(t: Type, vs: seq<Value>, tail: seq<byte>)
    requires EachTyped(t, vs) && EachFits(t, vs)
    ensures DecChain(t, EncEach(t, vs, ToBe32(1)) + (ToBe32(0) + tail)) == Got(NormEach(t, vs), tail)
    decreases t, 1, |vs|
  {
    hide Enc, Dec, Norm, Typed, Fits, ToBe32, DecUnit;
    var end := ToBe32(0) + tail;
    if vs == [] {
      assert EncEach(t, vs, ToBe32(1)) + end == end;
      UnitBack(0, tail);
    } else {
      var more := EncEach(t, vs[1..], ToBe32(1));
      assert EncEach(t, vs, ToBe32(1)) + end == ToBe32(1) + (Enc(t, vs[0]) + (more + end));
      UnitBack(1, Enc(t, vs[0]) + (more + end));
      DecodesEncoded(t, vs[0], more + end);
      ChainDecoded(t, vs[1..], tail);
    }
  }

  lemma {:induction false} AllDecoded(ts: seq<Type>, vs: seq<Value>, tail: seq<byte>)
    requires AllTyped(ts, vs) && AllFits(ts, vs)
    ensures DecAll(ts, EncAll(ts, vs) + tail) == Got(NormAll(ts, vs), tail)
    decreases ts, 0
  {
    hide Enc, Dec, Norm, Typed, Fits;
    if ts == [] {
      assert [] + tail == tail;
    } else {
      var more := EncAll(ts[1..], vs[1..]);
      assert EncAll(ts, vs) + tail == Enc(ts[0], vs[0]) + (more + tail);
      DecodesEncoded(ts[0], vs[0], more + tail);
      AllDecoded(ts[1..], vs[1..], tail);
    }
  }

  /** The round trip is exact for the values that are left alone by a transfer, and only for them. */
  lemma RoundTrip(t: Type, v: Value, tail: seq<byte>)
    requires Typed(t, v) && Fits(t, v)
    ensures Dec(t, Enc(t, v) + tail) == Got(v, tail) <==> Norm(t, v) == v
  {
    DecodesEncoded(t, v, tail);
  }

  /** An encoding says where it ends: no two values share one, whatever follows. */
  lemma EncodingIsUnambiguous(t: Type, v: Value, w: Value, a: seq<byte>, b: seq<byte>)
    requires Typed(t, v) && Fits(t, v) && Typed(t, w) && Fits(t, w)
    requires Enc(t, v) + a == Enc(t, w) + b
    ensures Norm(t, v) == Norm(t, w) && a == b
  {
    DecodesEncoded(t, v, a);
    DecodesEncoded(t, w, b);
  }

  // ---- Encoding what was decoded ----

  lemma NumDecoded(t: Type, s: seq<byte>)
    requires t.Int? || t.UInt? || t.Hyper? || t.Bool?
    ensures DecNum(t, s).Got? ==> var v := Num(DecNum(t, s).value); Typed(t, v) && Norm(t, v) == v
  {
    hide DecUnit;
    if t.Hyper? && DecUnit(s).Got? && DecUnit(DecUnit(s).rest).Got? {
      HyperBelow(DecUnit(s).value, DecUnit(DecUnit(s).rest).value);
    }
  }

  lemma HyperBelow(high: Uint, low: Uint)
    ensures 0 <= high * UINT32 + low < UINT32 * UINT32
  {
  }

  lemma TextDecoded(limit: Uint, s: seq<byte>)
    ensures var d := DecText(limit, s); d.Got? ==> IsText(d.value) && |d.value| <= limit
  {
    hide DecUnit, CutAtNul;
    var d := DecUnit(s);
    if d.Got? && d.value <= limit && |d.rest| >= d.value + Pad(d.value) { CutIsText(d.rest[..d.value]); }
  }

  /** Whatever bytes arrive, what is decoded is a value of the type, within its limits and normal. */
  lemma {:induction false} DecodedIsNormal(t: Type, s: seq<byte>)
    requires Dec(t, s).Got?
    ensures var v := Dec(t, s).value; Typed(t, v) && Fits(t, v) && Norm(t, v) == v
    decreases t, 0
  {
    hide DecUnit, DecText, DecNum;
    match t
    case Text(limit) => TextDecoded(limit, s);
    case OptText => OptDecoded(s);
    case Vector(element, limit) => EachNormal(element, DecUnit(s).value, DecUnit(s).rest);
    case Chain(node) => ChainNormal(node, s);
    case Record(fields) => AllNormal(fields, s);
    case _ => NumDecoded(t, s);
  }

  lemma OptDecoded(s: seq<byte>)
    requires DecOpt(s).Got?
    ensures var v := DecOpt(s).value; Typed(OptText, v) && Norm(OptText, v) == v
  {
    hide DecUnit, DecText;
    var d := DecUnit(s);
    if d.value == 1 { TextDecoded(UINT32 - 1, d.rest); }
  }

  lemma {:induction false} EachNormal(t: Type, n: nat, s: seq<byte>)
    requires DecEach(t, n, s).Got?
    ensures var vs := DecEach(t, n, s).value;
            |vs| == n && EachTyped(t, vs) && EachFits(t, vs) && NormEach(t, vs) == vs
    decreases t, 1, n
  {
    hide Dec, Norm, Typed, Fits;
    if n == 0 {
    } else {
      var d := Dec(t, s);
      DecodedIsNormal(t, s);
      EachNormal(t, n - 1, d.rest);
    }
  }

  lemma {:induction false} ChainNormal(t: Type, s: seq<byte>)
    requires DecChain(t, s).Got?
    ensures var vs := DecChain(t, s).value;
            EachTyped(t, vs) && EachFits(t, vs) && NormEach(t, vs) == vs
    decreases t, 1, |s|
  {
    hide Dec, Norm, Typed, Fits, DecUnit;
    var u := DecUnit(s);
    if u.value == 0 {
    } else {
      var d := Dec(t, u.rest);
      DecodedIsNormal(t, u.rest);
      ChainNormal(t, d.rest);
    }
  }

  lemma {:induction false} AllNormal(ts: seq<Type>, s: seq<byte>)
    requires DecAll(ts, s).Got?
    ensures var vs := DecAll(ts, s).value;
            AllTyped(ts, vs) && AllFits(ts, vs) && NormAll(ts, vs) == vs
    decreases ts, 0
  {
    hide Dec, Norm, Typed, Fits;
    if ts == [] {
    } else {
      var d := Dec(ts[0], s);
      DecodedIsNormal(ts[0], s);
      AllNormal(ts[1..], d.rest);
    }
  }

  /** A relay that decodes a message and encodes it again loses nothing the receiver would see. */
  lemma Relay(t: Type, s: seq<byte>)
    requires Dec(t, s).Got?
    ensures var d := Dec(t, s);
            Typed(t, d.value) && Fits(t, d.value) && Dec(t, Enc(t, d.value) + d.rest) == d
  {
    DecodedIsNormal(t, s);
    DecodesEncoded(t, Dec(t, s).value, Dec(t, s).rest);
  }

  // ---- Whole units ----

  predicate Whole(s: seq<byte>) {
    |s| % 4 == 0
  }

  lemma WholeJoin(a: seq<byte>, b: seq<byte>)
    requires Whole(a) && Whole(b)
    ensures Whole(a + b)
  {
  }

  lemma TextWhole(s: seq<byte>)
    ensures Whole(EncText(s))
  {
    hide ToBe32;
    assert |EncText(s)| == 4 + (|s| + Pad(|s|));
  }

  /** Every encoding is a whole number of four-byte units: section 3. */
  lemma {:induction false} EncWhole(t: Type, v: Value)
    requires Typed(t, v)
    ensures Whole(Enc(t, v))
    decreases t, 0
  {
    hide ToBe32, EncText;
    match t
    case Text(_) => TextWhole(v.s);
    case OptText => TextWhole(v.text); WholeJoin(ToBe32(v.valid), if v.valid == 1 then EncText(v.text) else []);
    case Vector(element, _) =>
      EachWhole(element, v.items, []);
      WholeJoin(ToBe32(|v.items|), EncEach(element, v.items, []));
    case Chain(node) =>
      EachWhole(node, v.items, ToBe32(1));
      WholeJoin(EncEach(node, v.items, ToBe32(1)), ToBe32(0));
    case Record(fields) => AllWhole(fields, v.items);
    case _ =>
  }

  lemma {:induction false} EachWhole(t: Type, vs: seq<Value>, mark: seq<byte>)
    requires EachTyped(t, vs) && Whole(mark)
    ensures Whole(EncEach(t, vs, mark))
    decreases t, 1, |vs|
  {
    if vs == [] {
    } else {
      hide Enc, Typed;
      EncWhole(t, vs[0]);
      EachWhole(t, vs[1..], mark);
      WholeJoin(mark, Enc(t, vs[0]));
      WholeJoin(mark + Enc(t, vs[0]), EncEach(t, vs[1..], mark));
    }
  }

  lemma {:induction false} AllWhole(ts: seq<Type>, vs: seq<Value>)
    requires AllTyped(ts, vs)
    ensures Whole(EncAll(ts, vs))
    decreases ts, 0
  {
    if ts == [] {
    } else {
      hide Enc, Typed;
      EncWhole(ts[0], vs[0]);
      AllWhole(ts[1..], vs[1..]);
      WholeJoin(Enc(ts[0], vs[0]), EncAll(ts[1..], vs[1..]));
    }
  }
}
