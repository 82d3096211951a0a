/**
  What the fields of each message can hold, and which messages are within their limits, in
  numbers.
 */
module L2tpFields {
  import opened Words
  import opened Xdr
  import opened XdrExact
  import opened XdrStreams
  import opened L2tpRoutines
  import opened L2tpTransfer
  import opened L2tpMessages

  // ---- What a field holds ----

  datatype Kind = I32 | U8 | U16 | U32 | U64 | String | Optional | Octets | Integers | Longs(n: nat)

  predicate Between(v: Value, low: int, high: int) {
    v.Num? && low <= v.n <= high
  }

  /** Text that a C string can hold. */
  predicate IsCString(s: seq<byte>) {
    |s| <= 0xFFFF_FFFF && forall i :: 0 <= i < |s| ==> s[i] != 0
  }

  predicate Holds(k: Kind, v: Value) {
    match k
    case I32 => Between(v, -0x8000_0000, 0x7FFF_FFFF)
    case U8 => Between(v, 0, 0xFF)
    case U16 => Between(v, 0, 0xFFFF)
    case U32 => Between(v, 0, 0xFFFF_FFFF)
    case U64 => Between(v, 0, 0xFFFF_FFFF_FFFF_FFFF)
    case String => v.Str? && IsCString(v.s)
    case Optional => v.Opt? && -0x8000_0000 <= v.valid <= 0x7FFF_FFFF && IsCString(v.text)
    case Octets =>
      v.Many? && |v.items| <= 0xFFFF_FFFF
      && forall i :: 0 <= i < |v.items| ==> Between(v.items[i], 0, 0xFF)
    case Integers =>
      v.Many? && |v.items| <= 0xFFFF_FFFF
      && forall i :: 0 <= i < |v.items| ==> Between(v.items[i], -0x8000_0000, 0x7FFF_FFFF)
    case Longs(n) =>
      v.Many? && |v.items| == n && forall i :: 0 <= i < n ==> Between(v.items[i], -0x8000_0000, 0x7FFF_FFFF)
  }

  predicate IsKind(p: Part, k: Kind) {
    match k
    case I32 => p == Call(Int) || p == Call(Bool)
    case U8 => p == Call(UInt(W8))
    case U16 => p == Call(UInt(W16))
    case U32 => p == Call(UInt(W32))
    case U64 => p == Call(Hyper)
    case String => p.Call? && p.t.Text?
    case Optional => p == Call(OptText)
    case Octets => p.Call? && p.t.Vector? && p.t.element == UInt(W8)
    case Integers => p.Call? && p.t.Vector? && p.t.element == Int
    case Longs(n) => p.Block? && |p.slots| == n
  }

  lemma {:induction false} EachIs(t: Type, vs: seq<Value>)
    ensures EachTyped(t, vs) <==> forall i :: 0 <= i < |vs| ==> Typed(t, vs[i])
  {
    if vs == [] {
    } else {
      hide Typed;
      EachIs(t, vs[1..]);
      assert forall i :: 0 <= i < |vs[1..]| ==> vs[1..][i] == vs[i + 1];
      if Typed(t, vs[0]) && forall i :: 0 <= i < |vs[1..]| ==> Typed(t, vs[1..][i]) {
        forall i | 0 <= i < |vs| ensures Typed(t, vs[i]) { if i > 0 { assert vs[1..][i - 1] == vs[i]; } }
      }
    }
  }

  lemma {:induction false} AllIs(ts: seq<Type>, vs: seq<Value>)
    requires |ts| == |vs|
    ensures AllTyped(ts, vs) <==> forall i :: 0 <= i < |ts| ==> Typed(ts[i], vs[i])
  {
    if ts == [] {
    } else {
      hide Typed;
      AllIs(ts[1..], vs[1..]);
      assert forall i :: 0 <= i < |ts[1..]| ==> ts[1..][i] == ts[i + 1] && vs[1..][i] == vs[i + 1];
      if Typed(ts[0], vs[0]) && forall i :: 0 <= i < |ts[1..]| ==> Typed(ts[1..][i], vs[1..][i]) {
        forall i | 0 <= i < |ts| ensures Typed(ts[i], vs[i]) {
          if i > 0 { assert ts[1..][i - 1] == ts[i] && vs[1..][i - 1] == vs[i]; }
        }
      }
    }
  }

  /** A part of a message holds what its kind says. */
  lemma KindIsTyped(p: Part, k: Kind, v: Value)
    requires IsKind(p, k)
    ensures Typed(Slow(p), v) <==> Holds(k, v)
  {
    if k.Longs? {
      LongsAreTyped(p, v);
    } else if (k.Octets? || k.Integers?) && v.Many? {
      EachIs(p.t.element, v.items);
    }
  }

  lemma LongsAreTyped(p: Part, v: Value)
    requires p.Block?
    ensures Typed(Slow(p), v) <==> Holds(Longs(|p.slots|), v)
  {
    var ts := SlotTypes(p.slots, false);
    if v.Many? && |v.items| == |ts| {
      AllIs(ts, v.items);
      forall i | 0 <= i < |ts| ensures Typed(ts[i], v.items[i]) <==> Between(v.items[i], -0x8000_0000, 0x7FFF_FFFF) {
        SlotAt(p.slots, i);
      }
      hide Typed, Between;
    }
  }

  lemma NestIsTyped(ps: seq<Part>, v: Value)
    ensures Typed(Slow(Nest(ps)), v)
       <==> v.Many? && |v.items| == |ps| && forall i :: 0 <= i < |ps| ==> Typed(Slow(ps[i]), v.items[i])
  {
    var ts := SlowAll(ps);
    if v.Many? && |v.items| == |ps| {
      AllIs(ts, v.items);
      forall i | 0 <= i < |ps| ensures ts[i] == Slow(ps[i]) { SlowAt(ps, i); }
    }
  }

  /** A message of `n` fields whose kinds are given. */
  predicate HoldsAll(v: Value, n: nat, kind: nat -> Kind) {
    v.Many? && |v.items| == n && forall i :: 0 <= i < n ==> Holds(kind(i), v.items[i])
  }

  lemma MessageHolds(ps: seq<Part>, v: Value, kind: nat -> Kind)
    requires forall i :: 0 <= i < |ps| ==> IsKind(ps[i], kind(i))
    ensures Typed(Slow(Nest(ps)), v) <==> HoldsAll(v, |ps|, kind)
  {
    hide Slow, Typed, Holds, IsKind;
    NestIsTyped(ps, v);
    if v.Many? && |v.items| == |ps| {
      forall i | 0 <= i < |ps| ensures Typed(Slow(ps[i]), v.items[i]) <==> Holds(kind(i), v.items[i]) {
        KindIsTyped(ps[i], kind(i), v.items[i]);
      }
    }
  }

  // ---- The messages ----

  function AppMsgKind(i: nat): Kind {
    if i < 2 then String else if i < 4 then I32 else if i == 5 then Integers else U32
  }

  lemma AppMsgHolds(v: Value)
    ensures Typed(Slow(AppMsgData()), v) <==> HoldsAll(v, 7, AppMsgKind)
  {
    hide HoldsAll, Slow, Typed;
    MessageHolds(AppMsgData().parts, v, AppMsgKind);
  }

  function SystemConfigKind(i: nat): Kind {
    if i == 1 then I32 else if i == 4 then Longs(9) else U32
  }

  lemma SystemConfigHolds(v: Value)
    ensures Typed(Slow(SystemConfig()), v) <==> HoldsAll(v, 5, SystemConfigKind)
  {
    hide HoldsAll, Slow, Typed;
    MessageHolds(SystemConfig().parts, v, SystemConfigKind);
  }

  function TunnelPeerKind(i: nat): Kind {
    if i == 0 then Longs(4)
    else if i in {1, 2} then U8
    else if i in {5, 6, 10} then Optional
    else if i == 7 then Octets
    else U16
  }

  lemma TunnelPeerHolds(v: Value)
    ensures Typed(Slow(TunnelPeer()), v) <==> HoldsAll(v, 11, TunnelPeerKind)
  {
    hide HoldsAll, Slow, Typed;
    MessageHolds(TunnelPeer().parts, v, TunnelPeerKind);
  }

  function TunnelStatsKind(i: nat): Kind {
    if i < 9 then U32 else if i < 16 then U16 else if i < 30 then U64 else I32
  }

  lemma TunnelStatsHolds(v: Value)
    ensures Typed(Slow(TunnelStats()), v) <==> HoldsAll(v, 31, TunnelStatsKind)
  {
    hide HoldsAll, Slow, Typed;
    MessageHolds(TunnelStats().parts, v, TunnelStatsKind);
  }

  /** The kinds of the first 39 fields of a tunnel message; a peer and its statistics follow. */
  function TunnelMsgKind(i: nat): Kind {
    if i in {0, 1, 7, 8, 24, 25} then U32
    else if i in {2, 3, 9, 10, 19, 20, 21, 36, 37} then U16
    else if i in {6, 14, 38} || 27 <= i < 35 then Optional
    else if i == 13 then Longs(8)
    else if i == 15 then Longs(4)
    else if i == 26 then Longs(3)
    else if i == 35 then Octets
    else I32
  }

  lemma TunnelMsgKinds(i: nat)
    requires i < 39
    ensures IsKind(TunnelMsgData().parts[i], TunnelMsgKind(i))
  {
    hide IsKind, TunnelMsgData, TunnelMsgKind;
    if i < 10 {
      FirstKinds(i);
    } else if i < 20 {
      SecondKinds(i);
    } else if i < 30 {
      ThirdKinds(i);
    } else {
      LastKinds(i);
    }
  }

  lemma FirstKinds(i: nat)
    requires i < 10
    ensures IsKind(TunnelMsgData().parts[i], TunnelMsgKind(i))
  {
  }

  lemma SecondKinds(i: nat)
    requires 10 <= i < 20
    ensures IsKind(TunnelMsgData().parts[i], TunnelMsgKind(i))
  {
  }

  lemma ThirdKinds(i: nat)
    requires 20 <= i < 30
    ensures IsKind(TunnelMsgData().parts[i], TunnelMsgKind(i))
  {
  }

  lemma LastKinds(i: nat)
    requires 30 <= i < 39
    ensures IsKind(TunnelMsgData().parts[i], TunnelMsgKind(i))
  {
  }

  lemma TunnelMsgHolds(v: Value)
    ensures Typed(Slow(TunnelMsgData()), v)
       <==> v.Many? && |v.items| == 41
            && (forall i :: 0 <= i < 39 ==> Holds(TunnelMsgKind(i), v.items[i]))
            && HoldsAll(v.items[39], 11, TunnelPeerKind) && HoldsAll(v.items[40], 31, TunnelStatsKind)
  {
    hide HoldsAll, Slow, Typed, Holds, TunnelMsgKind;
    var ps := TunnelMsgData().parts;
    NestIsTyped(ps, v);
    if v.Many? && |v.items| == 41 {
      forall i | 0 <= i < 39 ensures Typed(Slow(ps[i]), v.items[i]) <==> Holds(TunnelMsgKind(i), v.items[i]) {
        TunnelMsgKinds(i);
        KindIsTyped(ps[i], TunnelMsgKind(i), v.items[i]);
      }
      TunnelPeerHolds(v.items[39]);
      TunnelStatsHolds(v.items[40]);
      assert ps[39] == TunnelPeer() && ps[40] == TunnelStats();
    }
  }

  /** An entry of a list: the kinds of its fields, in a record. */
  lemma RecordHolds(ts: seq<Type>, v: Value, kind: nat -> Kind)
    requires forall i :: 0 <= i < |ts| ==> IsKind(Call(ts[i]), kind(i))
    ensures Typed(Record(ts), v) <==> HoldsAll(v, |ts|, kind)
  {
    hide Holds, IsKind;
    if v.Many? && |v.items| == |ts| {
      AllIs(ts, v.items);
      forall i | 0 <= i < |ts| ensures Typed(ts[i], v.items[i]) <==> Holds(kind(i), v.items[i]) {
        KindIsTyped(Call(ts[i]), kind(i), v.items[i]);
      }
    }
    hide Typed;
  }

  function PeerKind(i: nat): Kind {
    U32
  }

  function UserKind(i: nat): Kind {
    if i < 2 then String else if i == 2 then I32 else U16
  }

  /** Both addresses of every peer in a list have 32 bits. */
  lemma PeerListHolds(v: Value)
    ensures Typed(Slow(PeerListEntry()), v)
       <==> v.Many? && |v.items| == 3 && Holds(U32, v.items[0]) && Holds(U32, v.items[1]) && v.items[2].Many?
            && forall k :: 0 <= k < |v.items[2].items| ==> HoldsAll(v.items[2].items[k], 2, PeerKind)
  {
    hide Typed, Holds, HoldsAll;
    var ps := PeerListEntry().parts;
    NestIsTyped(ps, v);
    if v.Many? && |v.items| == 3 {
      KindIsTyped(ps[0], U32, v.items[0]);
      KindIsTyped(ps[1], U32, v.items[1]);
      ListHolds(Peer(), v.items[2]);
      if v.items[2].Many? {
        forall k | 0 <= k < |v.items[2].items|
          ensures Typed(Peer(), v.items[2].items[k]) <==> HoldsAll(v.items[2].items[k], 2, PeerKind)
        {
          RecordHolds(Peer().fields, v.items[2].items[k], PeerKind);
        }
      }
    }
  }

  lemma ListHolds(t: Type, v: Value)
    ensures Typed(Slow(Call(Chain(t))), v)
       <==> v.Many? && forall k :: 0 <= k < |v.items| ==> Typed(t, v.items[k])
  {
    if v.Many? { EachIs(t, v.items); }
  }

  /** Name and time of every user are strings, the boolean is an int, both numbers have 16 bits. */
  lemma UserListHolds(v: Value)
    ensures Typed(Slow(UserListEntry()), v)
       <==> v.Many? && |v.items| == 6 && v.items[5].Many?
            && (forall i :: 0 <= i < 5 ==> Holds(UserKind(i), v.items[i]))
            && forall k :: 0 <= k < |v.items[5].items| ==> HoldsAll(v.items[5].items[k], 5, UserKind)
  {
    hide Typed, Holds, HoldsAll, Slow;
    var ps := UserListEntry().parts;
    NestIsTyped(ps, v);
    if v.Many? && |v.items| == 6 {
      forall i | 0 <= i < 5 ensures Typed(Slow(ps[i]), v.items[i]) <==> Holds(UserKind(i), v.items[i]) {
        KindIsTyped(ps[i], UserKind(i), v.items[i]);
      }
      UsersHold(v.items[5]);
    }
  }

  lemma UsersHold(v: Value)
    ensures Typed(Slow(Call(Chain(User()))), v)
       <==> v.Many? && forall k :: 0 <= k < |v.items| ==> HoldsAll(v.items[k], 5, UserKind)
  {
    hide Typed, Holds, HoldsAll, Slow;
    ListHolds(User(), v);
    if v.Many? {
      forall k | 0 <= k < |v.items| ensures Typed(User(), v.items[k]) <==> HoldsAll(v.items[k], 5, UserKind) {
        RecordHolds(User().fields, v.items[k], UserKind);
      }
    }
  }

  // ---- Limits ----

  lemma {:induction false} AllFitIs(ts: seq<Type>, vs: seq<Value>)
    requires AllTyped(ts, vs)
    ensures forall i :: 0 <= i < |ts| ==> Typed(ts[i], vs[i])
    ensures AllFits(ts, vs) <==> forall i :: 0 <= i < |ts| ==> Fits(ts[i], vs[i])
  {
    AllIs(ts, vs);
    if ts == [] {
    } else {
      hide Fits, Typed;
      AllFitIs(ts[1..], vs[1..]);
      assert forall i :: 0 <= i < |ts[1..]| ==> ts[1..][i] == ts[i + 1] && vs[1..][i] == vs[i + 1];
      if Fits(ts[0], vs[0]) && forall i :: 0 <= i < |ts[1..]| ==> Fits(ts[1..][i], vs[1..][i]) {
        forall i | 0 <= i < |ts| ensures Fits(ts[i], vs[i]) {
          if i > 0 { assert ts[1..][i - 1] == ts[i] && vs[1..][i - 1] == vs[i]; }
        }
      }
    }
  }

  lemma NestFits(ps: seq<Part>, v: Value)
    requires Typed(Slow(Nest(ps)), v)
    ensures forall i :: 0 <= i < |ps| ==> Typed(Slow(ps[i]), Field(v, i))
    ensures Fits(Slow(Nest(ps)), v) <==> forall i :: 0 <= i < |ps| ==> Fits(Slow(ps[i]), Field(v, i))
  {
    var ts := SlowAll(ps);
    AllFitIs(ts, v.items);
    forall i | 0 <= i < |ps| ensures ts[i] == Slow(ps[i]) && Field(v, i) == v.items[i] { SlowAt(ps, i); }
    hide Fits, Typed;
  }

  /** Number of elements of an array, number of bytes of a string. */
  function Length(v: Value): nat {
    match v
    case Many(items) => |items|
    case Str(s) => |s|
    case _ => 0
  }

  lemma PartFits(p: Part, v: Value)
    requires Typed(Slow(p), v)
    requires p.Call? ==> !p.t.Record? && !p.t.Chain? && (p.t.Vector? ==> p.t.element.Int? || p.t.element.UInt?)
    requires !p.Nest?
    ensures Fits(Slow(p), v)
       <==> (p.Call? && p.t.Text? ==> Length(v) <= p.t.limit) && (p.Call? && p.t.Vector? ==> Length(v) <= p.t.limit)
  {
    if p.Block? {
      BlockFits(p, v);
    } else if p.t.Vector? {
      NumbersFit(p.t.element, v.items);
    }
  }

  lemma BlockFits(p: Part, v: Value)
    requires p.Block? && Typed(Slow(p), v)
    ensures Fits(Slow(p), v)
  {
    SlotsTyped(p.slots, false, v.items);
  }

  lemma {:induction false} NumbersFit(t: Type, vs: seq<Value>)
    requires (t.Int? || t.UInt?) && EachTyped(t, vs)
    ensures EachFits(t, vs)
  {
    if vs == [] {
    } else {
      NumbersFit(t, vs[1..]);
    }
  }

  /** A peer is within its limits exactly if its tiebreaker has at most eight bytes. */
  lemma TunnelPeerFits(v: Value)
    requires Typed(Slow(TunnelPeer()), v)
    ensures Fits(Slow(TunnelPeer()), v) <==> Length(Field(v, 7)) <= 8
  {
    hide Slow, Typed, Fits, Length;
    var ps := TunnelPeer().parts;
    NestFits(ps, v);
    forall i | 0 <= i < 11 ensures Fits(Slow(ps[i]), Field(v, i)) <==> (i == 7 ==> Length(Field(v, 7)) <= 8) {
      PartFits(ps[i], Field(v, i));
    }
  }

  lemma TunnelStatsFits(v: Value)
    requires Typed(Slow(TunnelStats()), v)
    ensures Fits(Slow(TunnelStats()), v)
  {
    hide Slow, Typed, Fits, Length;
    var ps := TunnelStats().parts;
    NestFits(ps, v);
    forall i | 0 <= i < 31 ensures Fits(Slow(ps[i]), Field(v, i)) { PartFits(ps[i], Field(v, i)); }
  }

  lemma TunnelMsgPart(i: nat)
    requires i < 39
    ensures var p := TunnelMsgData().parts[i];
            && !p.Nest? && (p.Call? ==> !p.t.Record? && !p.t.Chain? && !p.t.Text?)
            && (if i == 35 then p.Call? && p.t == Vector(UInt(W8), 8) else p.Call? ==> !p.t.Vector?)
  {
  }

  /** A tunnel message, exactly if its tiebreaker and that of its peer have at most eight bytes each. */
  lemma TunnelMsgFits(v: Value)
    requires Typed(Slow(TunnelMsgData()), v)
    ensures Fits(Slow(TunnelMsgData()), v)
       <==> Length(Field(v, 35)) <= 8 && Length(Field(Field(v, 39), 7)) <= 8
  {
    hide Slow, Typed, Fits, Length;
    var ps := TunnelMsgData().parts;
    NestFits(ps, v);
    forall i | 0 <= i < 39 ensures Fits(Slow(ps[i]), Field(v, i)) <==> (i == 35 ==> Length(Field(v, 35)) <= 8) {
      TunnelMsgPart(i);
      PartFits(ps[i], Field(v, i));
    }
    assert ps[39] == TunnelPeer() && ps[40] == TunnelStats();
    TunnelPeerFits(Field(v, 39));
    TunnelStatsFits(Field(v, 40));
    hide TunnelMsgData, TunnelPeer, TunnelStats, Field;
  }

  /** An application message, exactly if its two version strings have at most sixteen bytes each. */
  lemma AppMsgFits(v: Value)
    requires Typed(Slow(AppMsgData()), v)
    ensures Fits(Slow(AppMsgData()), v) <==> Length(Field(v, 0)) <= 16 && Length(Field(v, 1)) <= 16
  {
    hide Slow, Typed, Fits, Length;
    var ps := AppMsgData().parts;
    NestFits(ps, v);
    AppMsgHolds(v);
    forall i | 0 <= i < 7 ensures Fits(Slow(ps[i]), Field(v, i)) <==> (i < 2 ==> Length(Field(v, i)) <= 16) {
      PartFits(ps[i], Field(v, i));
      if i == 5 { PatchesFit(Field(v, 5)); }
    }
  }

  lemma PatchesFit(v: Value)
    requires Holds(Integers, v)
    ensures Length(v) <= NO_LIMIT
  {
  }

  /** A system configuration is always within its limits. */
  lemma SystemConfigFits(v: Value)
    requires Typed(Slow(SystemConfig()), v)
    ensures Fits(Slow(SystemConfig()), v)
  {
    hide Slow, Typed, Fits, Length;
    var ps := SystemConfig().parts;
    NestFits(ps, v);
    forall i | 0 <= i < 5 ensures Fits(Slow(ps[i]), Field(v, i)) { PartFits(ps[i], Field(v, i)); }
  }

  // ---- Sending ----

  /** A peer is sent exactly when its tiebreaker is short enough and there is room for all of it. */
  method SendTunnelPeer(x: XdrStream, v: Value) returns (ok: bool)
    requires Typed(Slow(TunnelPeer()), v)
    modifies x
    ensures ok <==> Length(Field(v, 7)) <= 8 && |Enc(Slow(TunnelPeer()), v)| <= old(x.room)
  {
    hide Slow, Typed, Fits, Enc, Mix, Length;
    ghost var mix;
    ok, mix := EncodeRoutine(x, TunnelPeer(), v);
    MixTyped(TunnelPeer(), mix, v);
    TunnelPeerFits(v);
  }

  method SendTunnelMsg(x: XdrStream, v: Value) returns (ok: bool)
    requires Typed(Slow(TunnelMsgData()), v)
    modifies x
    ensures ok <==> Length(Field(v, 35)) <= 8 && Length(Field(Field(v, 39), 7)) <= 8
                    && |Enc(Slow(TunnelMsgData()), v)| <= old(x.room)
  {
    hide Slow, Typed, Fits, Enc, Mix, Length, TunnelMsgData;
    ghost var mix;
    ok, mix := EncodeRoutine(x, TunnelMsgData(), v);
    MixTyped(TunnelMsgData(), mix, v);
    TunnelMsgFits(v);
  }

  method SendAppMsg(x: XdrStream, v: Value) returns (ok: bool)
    requires Typed(Slow(AppMsgData()), v)
    modifies x
    ensures ok <==> Length(Field(v, 0)) <= 16 && Length(Field(v, 1)) <= 16
                    && |Enc(Slow(AppMsgData()), v)| <= old(x.room)
  {
    hide Slow, Typed, Fits, Enc, Mix, Length;
    ghost var mix;
    ok, mix := EncodeRoutine(x, AppMsgData(), v);
    MixTyped(AppMsgData(), mix, v);
    AppMsgFits(v);
  }
}
