/**
  Which values a transfer leaves alone: those that `Norm` does not change, described
  without it.
 */
module XdrExact {
  import opened Words
  import opened Xdr

  /** The value arrives as it was sent, whatever follows it. */
  ghost predicate Exact(t: Type, v: Value)
    requires Typed(t, v) && Fits(t, v)
  {
    forall tail :: Dec(t, Enc(t, v) + tail) == Got(v, tail)
  }

  predicate IsBoolean(v: Value) {
    v == Num(0) || v == Num(1)
  }

  /** An absent string holds no text. */
  predicate IsProper(v: Value) {
    v.Opt? && (v.valid == 1 || v.text == [])
  }

  /** Every boolean is 0 or 1 and every absent string is empty, in all elements, entries and fields. */
  predicate Settled(t: Type, v: Value)
    decreases t
  {
    match t
    case Bool => IsBoolean(v)
    case OptText => IsProper(v)
    case Vector(element, _) => v.Many? && forall i :: 0 <= i < |v.items| ==> Settled(element, v.items[i])
    case Chain(node) => v.Many? && forall i :: 0 <= i < |v.items| ==> Settled(node, v.items[i])
    case Record(ts) => v.Many? && |v.items| == |ts| && forall i :: 0 <= i < |ts| ==> Settled(ts[i], v.items[i])
    case _ => true
  }

  lemma ConsSame(v: Value, w: Value, vs: seq<Value>, ws: seq<Value>)
    ensures [v] + vs == [w] + ws <==> v == w && vs == ws
  {
    var a, b := [v] + vs, [w] + ws;
    assert a[0] == v && b[0] == w && a[1..] == vs && b[1..] == ws;
  }

  lemma {:induction false} SettledIsNormal(t: Type, v: Value)
    requires Typed(t, v)
    ensures Norm(t, v) == v <==> Settled(t, v)
    decreases t, 0
  {
    match t
    case Vector(element, _) => EachSettled(element, v.items);
    case Chain(node) => EachSettled(node, v.items);
    case Record(ts) => AllSettled(ts, v.items);
    case _ =>
  }

  lemma {:induction false} EachSettled(t: Type, vs: seq<Value>)
    requires EachTyped(t, vs)
    ensures NormEach(t, vs) == vs <==> forall i :: 0 <= i < |vs| ==> Settled(t, vs[i])
    decreases t, 1, |vs|
  {
    if vs == [] {
    } else {
      hide Norm, Typed, Settled;
      SettledIsNormal(t, vs[0]);
      EachSettled(t, vs[1..]);
      ConsSame(Norm(t, vs[0]), vs[0], NormEach(t, vs[1..]), vs[1..]);
      assert [vs[0]] + vs[1..] == vs;
      EachSplit(t, vs);
    }
  }

  lemma EachSplit(t: Type, vs: seq<Value>)
    requires vs != []
    ensures (forall i :: 0 <= i < |vs| ==> Settled(t, vs[i]))
       <==> Settled(t, vs[0]) && forall i :: 0 <= i < |vs[1..]| ==> Settled(t, vs[1..][i])
  {
    hide Settled;
    if Settled(t, vs[0]) && forall i :: 0 <= i < |vs[1..]| ==> Settled(t, vs[1..][i]) {
      forall i | 0 <= i < |vs| ensures Settled(t, vs[i]) {
        if i > 0 { assert vs[1..][i - 1] == vs[i]; }
      }
    }
  }

  lemma {:induction false} AllSettled(ts: seq<Type>, vs: seq<Value>)
    requires AllTyped(ts, vs)
    ensures NormAll(ts, vs) == vs <==> forall i :: 0 <= i < |ts| ==> Settled(ts[i], vs[i])
    decreases ts, 0
  {
    if ts == [] {
    } else {
      hide Norm, Typed, Settled;
      SettledIsNormal(ts[0], vs[0]);
      AllSettled(ts[1..], vs[1..]);
      ConsSame(Norm(ts[0], vs[0]), vs[0], NormAll(ts[1..], vs[1..]), vs[1..]);
      assert [vs[0]] + vs[1..] == vs;
      AllSplit(ts, vs);
    }
  }

  lemma AllSplit(ts: seq<Type>, vs: seq<Value>)
    requires ts != [] && |ts| == |vs|
    ensures (forall i :: 0 <= i < |ts| ==> Settled(ts[i], vs[i]))
       <==> Settled(ts[0], vs[0]) && forall i :: 0 <= i < |ts[1..]| ==> Settled(ts[1..][i], vs[1..][i])
  {
    hide Settled;
    if Settled(ts[0], vs[0]) && forall i :: 0 <= i < |ts[1..]| ==> Settled(ts[1..][i], vs[1..][i]) {
      forall i | 0 <= i < |ts| ensures Settled(ts[i], vs[i]) {
        if i > 0 { assert ts[1..][i - 1] == ts[i] && vs[1..][i - 1] == vs[i]; }
      }
    }
  }

  /** A value of any type arrives exactly as it was sent if and only if it is settled. */
  lemma ExactIsSettled(t: Type, v: Value)
    requires Typed(t, v) && Fits(t, v)
    ensures Exact(t, v) <==> Settled(t, v)
  {
    hide Settled, Typed, Fits, Norm;
    SettledIsNormal(t, v);
    forall tail ensures Dec(t, Enc(t, v) + tail) == Got(v, tail) <==> Norm(t, v) == v {
      RoundTrip(t, v, tail);
    }
    if Exact(t, v) { assert Dec(t, Enc(t, v) + []) == Got(v, []); }
  }

  // ---- Types without limits ----

  /** Every limit in the type is the largest there is. */
  predicate IsUnlimited(t: Type)
    decreases t
  {
    match t
    case Text(limit) => limit == UINT32 - 1
    case Vector(element, limit) => limit == UINT32 - 1 && IsUnlimited(element)
    case Chain(node) => IsUnlimited(node)
    case Record(ts) => forall i :: 0 <= i < |ts| ==> IsUnlimited(ts[i])
    case _ => true
  }

  lemma {:induction false} UnlimitedFits(t: Type, v: Value)
    requires IsUnlimited(t) && Typed(t, v)
    ensures Fits(t, v)
    decreases t, 0
  {
    match t
    case Vector(element, _) => EachUnlimitedFits(element, v.items);
    case Chain(node) => EachUnlimitedFits(node, v.items);
    case Record(ts) => AllUnlimitedFit(ts, v.items);
    case _ =>
  }

  lemma {:induction false} EachUnlimitedFits(t: Type, vs: seq<Value>)
    requires IsUnlimited(t) && EachTyped(t, vs)
    ensures EachFits(t, vs)
    decreases t, 1, |vs|
  {
    if vs == [] {
    } else {
      hide IsUnlimited, Typed, Fits;
      UnlimitedFits(t, vs[0]);
      EachUnlimitedFits(t, vs[1..]);
    }
  }

  lemma {:induction false} AllUnlimitedFit(ts: seq<Type>, vs: seq<Value>)
    requires (forall i :: 0 <= i < |ts| ==> IsUnlimited(ts[i])) && AllTyped(ts, vs)
    ensures AllFits(ts, vs)
    decreases ts, 0
  {
    if ts == [] {
    } else {
      hide IsUnlimited, Typed, Fits;
      UnlimitedFits(ts[0], vs[0]);
      AllUnlimitedFit(ts[1..], vs[1..]);
    }
  }

  // ---- Single elements ----

  lemma {:induction false} ElementTyped(t: Type, vs: seq<Value>, i: nat)
    requires EachTyped(t, vs) && i < |vs|
    ensures Typed(t, vs[i])
  {
    if i == 0 {
    } else {
      ElementTyped(t, vs[1..], i - 1);
    }
  }

  lemma {:induction false} FieldTyped(ts: seq<Type>, vs: seq<Value>, i: nat)
    requires AllTyped(ts, vs) && i < |ts|
    ensures Typed(ts[i], vs[i])
  {
    if i == 0 {
    } else {
      FieldTyped(ts[1..], vs[1..], i - 1);
    }
  }
}
