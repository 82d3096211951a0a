/** The message routines themselves, field by field. */
module L2tpMessages {
  import opened Words
  import opened Xdr
  import opened XdrExact
  import opened L2tpRoutines

  const U8 := Call(UInt(W8))
  const U16 := Call(UInt(W16))
  const U32 := Call(UInt(W32))
  const U64 := Call(Hyper)
  const INT := Call(Int)
  const BOOL := Call(Bool)
  const OPTSTRING := Call(OptText)

  const NO_LIMIT: Uint := UINT32 - 1   // ~0 as an unsigned int

  /** Two version strings, then numbers and the list of patches. */
  function AppMsgData(): Part {
    Nest([
      Call(Text(16)),               // build_date
      Call(Text(16)),               // build_time
      INT,                          // major
      INT,                          // minor
      U32,                          // cookie
      Call(Vector(Int, NO_LIMIT)),  // patches
      U32                           // features
    ])
  }

  function SystemConfig(): Part {
    Nest([
      U32,                          // flags
      INT,                          // udp_port
      U32,                          // trace_flags
      U32,                          // trace_flags_mask
      Block([
        Long,                       // max_tunnels
        Long,                       // max_sessions
        Long,                       // drain_tunnels
        Long,                       // tunnel_establish_timeout
        Long,                       // session_establish_timeout
        Long,                       // tunnel_persist_pend_timeout
        Long,                       // session_persist_pend_timeout
        Flag,                       // deny_local_tunnel_creates
        Flag                        // deny_remote_tunnel_creates
      ])
    ])
  }

  function Tiebreaker(): Part {
    Call(Vector(UInt(W8), 8))
  }

  function TunnelPeer(): Part {
    Nest([
      Block([
        Flag,                       // framing_cap_sync
        Flag,                       // framing_cap_async
        Flag,                       // bearer_cap_digital
        Flag                        // bearer_cap_analog
      ]),
      U8,                           // protocol_version_ver
      U8,                           // protocol_version_rev
      U16,                          // rx_window_size
      U16,                          // firmware_revision
      OPTSTRING,                    // host_name
      OPTSTRING,                    // vendor_name
      Tiebreaker(),
      U16,                          // result_code_result
      U16,                          // result_code_error
      OPTSTRING                     // result_code_message
    ])
  }

  function TunnelStats(): Part {
    Nest([
      U32,                          // retransmits
      U32,                          // tx_zlbs
      U32,                          // tx_zlb_fails
      U32,                          // rx_zlbs
      U32,                          // data_pkt_discards
      U32,                          // duplicate_pkt_discards
      U32,                          // rx_hellos
      U32,                          // tx_hellos
      U32,                          // tx_hello_fails
      U16,                          // ns
      U16,                          // nr
      U16,                          // peer_ns
      U16,                          // peer_nr
      U16,                          // cwnd
      U16,                          // ssthresh
      U16,                          // congpkt_acc
      U64,                          // control_rx_packets
      U64,                          // control_rx_bytes
      U64,                          // control_rx_oos_packets
      U64,                          // control_rx_oos_discards
      U64,                          // control_tx_packets
      U64,                          // control_tx_bytes
      U64,                          // data_rx_packets
      U64,                          // data_rx_bytes
      U64,                          // data_rx_errors
      U64,                          // data_rx_oos_packets
      U64,                          // data_rx_oos_discards
      U64,                          // data_tx_packets
      U64,                          // data_tx_bytes
      U64,                          // data_tx_errors
      BOOL                          // using_ipsec
    ])
  }

  function TunnelMsgData(): Part {
    Nest([
      U32,                          // flags
      U32,                          // flags2
      U16,                          // tunnel_id
      U16,                          // peer_tunnel_id
      INT,                          // result_code
      INT,                          // hide_avps
      OPTSTRING,                    // tunnel_name
      U32,                          // our_addr
      U32,                          // peer_addr
      U16,                          // our_udp_port
      U16,                          // peer_udp_port
      INT,                          // config_id
      INT,                          // auth_mode
      Block([
        Flag,                       // framing_cap_sync
        Flag,                       // framing_cap_async
        Flag,                       // bearer_cap_digital
        Flag,                       // bearer_cap_analog
        Flag,                       // use_tiebreaker
        Flag,                       // allow_ppp_proxy
        Flag,                       // use_udp_checksums
        Flag                        // created_by_admin
      ]),
      OPTSTRING,                    // create_time
      Block([
        Long,                       // max_sessions
        Long,                       // num_sessions
        Long,                       // use_count
        Long                        // num_establish_retries
      ]),
      INT,                          // mode
      INT,                          // hello_timeout
      INT,                          // max_retries
      U16,                          // rx_window_size
      U16,                          // tx_window_size
      U16,                          // actual_tx_window_size
      INT,                          // retry_timeout
      INT,                          // idle_timeout
      U32,                          // trace_flags
      U32,                          // trace_flags_mask
      Block([
        Flag,                       // do_pmtu_discovery
        Flag,                       // persist
        Long                        // mtu
      ]),
      OPTSTRING,                    // state
      OPTSTRING,                    // secret
      OPTSTRING,                    // host_name
      OPTSTRING,                    // tunnel_profile_name
      OPTSTRING,                    // peer_profile_name
      OPTSTRING,                    // session_profile_name
      OPTSTRING,                    // ppp_profile_name
      OPTSTRING,                    // interface_name
      Tiebreaker(),
      U16,                          // result_code_result
      U16,                          // result_code_error
      OPTSTRING,                    // result_code_message
      TunnelPeer(),
      TunnelStats()
    ])
  }

  /** A peer's two addresses; the list entry has a pointer to the next one behind them. */
  function Peer(): Type {
    Record([UInt(W32), UInt(W32)])
  }

  function PeerListEntry(): Part {
    Nest([U32, U32, Call(Chain(Peer()))])
  }

  function User(): Type {
    Record([Text(NO_LIMIT), Text(NO_LIMIT), Bool, UInt(W16), UInt(W16)])
  }

  function UserListEntry(): Part {
    Nest([
      Call(Text(NO_LIMIT)),         // user_name
      Call(Text(NO_LIMIT)),         // create_time
      BOOL,                         // created_by_admin
      U16,                          // tunnel_id
      U16,                          // session_id
      Call(Chain(User()))           // next
    ])
  }

  // ---- Sizes on the wire ----

  /** The types that take the same room whatever they hold. */
  function Units(t: Type): nat {
    match t
    case Int => 1
    case UInt(_) => 1
    case Bool => 1
    case Hyper => 2
    case Record(fields) => AllUnits(fields)
    case _ => 0
  }

  function AllUnits(ts: seq<Type>): nat {
    if ts == [] then 0 else Units(ts[0]) + AllUnits(ts[1..])
  }

  predicate IsFixed(t: Type) {
    match t
    case Int => true
    case UInt(_) => true
    case Bool => true
    case Hyper => true
    case Record(fields) => AllFixed(fields)
    case _ => false
  }

  predicate AllFixed(ts: seq<Type>) {
    ts == [] || (IsFixed(ts[0]) && AllFixed(ts[1..]))
  }

  lemma {:induction false} FixedSize(t: Type, v: Value)
    requires IsFixed(t) && Typed(t, v)
    ensures |Enc(t, v)| == 4 * Units(t)
    decreases t
  {
    match t
    case Record(fields) => AllFixedSize(fields, v.items);
    case _ =>
  }

  lemma {:induction false} AllFixedSize(ts: seq<Type>, vs: seq<Value>)
    requires AllFixed(ts) && AllTyped(ts, vs)
    ensures |EncAll(ts, vs)| == 4 * AllUnits(ts)
    decreases ts
  {
    if ts == [] {
    } else {
      FixedSize(ts[0], vs[0]);
      AllFixedSize(ts[1..], vs[1..]);
    }
  }

  /** A list of peers takes three units for each entry after the first: the pointer and two addresses. */
  lemma PeerListSize(v: Value)
    requires Typed(Slow(PeerListEntry()), v)
    ensures |v.items| == 3 && v.items[2].Many?
    ensures |Enc(Slow(PeerListEntry()), v)| == 12 + 12 * |v.items[2].items|
  {
    var ts, vs := [UInt(W32), UInt(W32), Chain(Peer())], v.items;
    assert Slow(PeerListEntry()) == Record(ts);
    assert ts[1..] == [UInt(W32), Chain(Peer())] && ts[2..] == [Chain(Peer())] && ts[3..] == [];
    assert AllTyped(ts[1..], vs[1..]) && AllTyped(ts[2..], vs[2..]) && AllTyped(ts[3..], vs[3..]);
    PeersSize(vs[2].items);
  }

  lemma {:induction false} PeersSize(vs: seq<Value>)
    requires EachTyped(Peer(), vs)
    ensures |EncEach(Peer(), vs, ToBe32(1))| == 12 * |vs|
  {
    if vs == [] {
    } else {
      var ts := [UInt(W32), UInt(W32)];
      assert Peer() == Record(ts) && ts[1..] == [UInt(W32)] && ts[2..] == [];
      AllFixedSize(ts, vs[0].items);
      PeersSize(vs[1..]);
    }
  }

  // ---- Which messages arrive exactly as they were sent ----

  lemma {:induction false} SlowAt(ps: seq<Part>, i: nat)
    requires i < |ps|
    ensures SlowAll(ps)[i] == Slow(ps[i])
  {
    if i == 0 {
    } else {
      SlowAt(ps[1..], i - 1);
    }
  }

  lemma {:induction false} SlotAt(slots: seq<Slot>, i: nat)
    requires i < |slots|
    ensures SlotTypes(slots, false)[i] == if slots[i] == Flag then Bool else Int
  {
    if i == 0 {
    } else {
      SlotAt(slots[1..], i - 1);
    }
  }

  /** The `i`-th value of a record. */
  function Field(v: Value, i: nat): Value {
    if v.Many? && i < |v.items| then v.items[i] else v
  }

  /** A routine's message is settled when each of its parts is. */
  lemma NestSettled(ps: seq<Part>, v: Value)
    requires Typed(Slow(Nest(ps)), v)
    ensures forall i :: 0 <= i < |ps| ==> Typed(Slow(ps[i]), Field(v, i))
    ensures Settled(Slow(Nest(ps)), v) <==> forall i :: 0 <= i < |ps| ==> Settled(Slow(ps[i]), Field(v, i))
  {
    var ts := SlowAll(ps);
    forall i | 0 <= i < |ps| ensures ts[i] == Slow(ps[i]) && Typed(ts[i], v.items[i]) && Field(v, i) == v.items[i] {
      SlowAt(ps, i);
      FieldTyped(ts, v.items, i);
    }
  }

  lemma BlockSettled(p: Part, v: Value)
    requires p.Block? && Typed(Slow(p), v)
    ensures Settled(Slow(p), v)
       <==> forall i :: 0 <= i < |p.slots| && p.slots[i] == Flag ==> IsBoolean(Field(v, i))
  {
    var ts := SlotTypes(p.slots, false);
    forall i | 0 <= i < |ts|
      ensures Field(v, i) == v.items[i]
      ensures Settled(ts[i], v.items[i]) <==> (p.slots[i] == Flag ==> IsBoolean(v.items[i]))
    {
      SlotAt(p.slots, i);
    }
    hide IsBoolean, SlotTypes;
  }

  lemma CallSettled(p: Part, v: Value)
    requires p.Call?
    ensures (p.t.Int? || p.t.UInt? || p.t.Text? || p.t.Hyper?) ==> Settled(Slow(p), v)
    ensures p.t == OptText ==> (Settled(Slow(p), v) <==> IsProper(v))
    ensures p.t == Bool ==> (Settled(Slow(p), v) <==> IsBoolean(v))
  {
  }

  /** Numbers are settled in arrays, too. */
  lemma NumbersSettled(p: Part, v: Value)
    requires p.Call? && p.t.Vector? && (p.t.element.Int? || p.t.element.UInt?) && Typed(Slow(p), v)
    ensures Settled(Slow(p), v)
  {
  }

  /** An application message arrives exactly as it was sent, whatever it holds. */
  lemma AppMsgExact(v: Value)
    requires Typed(Slow(AppMsgData()), v) && Fits(Slow(AppMsgData()), v)
    ensures Exact(Slow(AppMsgData()), v)
  {
    hide Exact, Slow, Typed, Fits, Settled;
    var ps := AppMsgData().parts;
    ExactIsSettled(Slow(AppMsgData()), v);
    NestSettled(ps, v);
    forall i | 0 <= i < |ps| ensures Settled(Slow(ps[i]), Field(v, i)) {
      if i == 5 { NumbersSettled(ps[i], Field(v, i)); } else { CallSettled(ps[i], Field(v, i)); }
    }
  }

  /** Of a system configuration, nothing but a boolean other than 0 and 1 can change on the way. */
  lemma SystemConfigExact(v: Value)
    requires Typed(Slow(SystemConfig()), v) && Fits(Slow(SystemConfig()), v)
    ensures Exact(Slow(SystemConfig()), v) <==> IsBoolean(Field(Field(v, 4), 7)) && IsBoolean(Field(Field(v, 4), 8))
  {
    hide Exact, Slow, Typed, Fits, Settled, IsBoolean;
    var ps := SystemConfig().parts;
    ExactIsSettled(Slow(SystemConfig()), v);
    NestSettled(ps, v);
    forall i | 0 <= i < 4 ensures Settled(Slow(ps[i]), Field(v, i)) { CallSettled(ps[i], Field(v, i)); }
    BlockSettled(ps[4], Field(v, 4));
    assert ps[4].slots[7] == ps[4].slots[8] == Flag && forall i :: 0 <= i < 7 ==> ps[4].slots[i] == Long;
  }

  predicate HasPlainFlags(v: Value, flags: set<nat>) {
    forall k :: k in flags ==> IsBoolean(Field(v, k))
  }

  predicate IsPlainPeer(v: Value) {
    HasPlainFlags(Field(v, 0), {0, 1, 2, 3}) && IsProper(Field(v, 5)) && IsProper(Field(v, 6)) && IsProper(Field(v, 10))
  }

  lemma PeerSettledIff(v: Value)
    requires Typed(Slow(TunnelPeer()), v)
    ensures Settled(Slow(TunnelPeer()), v) <==> IsPlainPeer(v)
  {
    hide Slow, Typed, Settled, IsBoolean, IsProper;
    var ps := TunnelPeer().parts;
    NestSettled(ps, v);
    BlockSettled(ps[0], Field(v, 0));
    assert forall i :: 0 <= i < 4 ==> ps[0].slots[i] == Flag;
    forall i | 1 <= i < 11
      ensures Settled(Slow(ps[i]), Field(v, i)) <==> (i in {5, 6, 10} ==> IsProper(Field(v, i)))
    {
      if i == 7 { NumbersSettled(ps[i], Field(v, i)); } else { CallSettled(ps[i], Field(v, i)); }
    }
  }

  /** Of a peer's capabilities, the four booleans and the text of absent strings can change. */
  lemma TunnelPeerExact(v: Value)
    requires Typed(Slow(TunnelPeer()), v) && Fits(Slow(TunnelPeer()), v)
    ensures Exact(Slow(TunnelPeer()), v) <==> IsPlainPeer(v)
  {
    hide Exact, Slow, Typed, Fits, Settled, IsPlainPeer;
    ExactIsSettled(Slow(TunnelPeer()), v);
    PeerSettledIff(v);
  }

  /** Of the statistics, only the boolean at the end can change. */
  lemma StatsSettledIff(v: Value)
    requires Typed(Slow(TunnelStats()), v)
    ensures Settled(Slow(TunnelStats()), v) <==> IsBoolean(Field(v, 30))
  {
    hide Slow, Typed, Settled, IsBoolean;
    var ps := TunnelStats().parts;
    NestSettled(ps, v);
    forall i | 0 <= i < 31 ensures Settled(Slow(ps[i]), Field(v, i)) <==> (i == 30 ==> IsBoolean(Field(v, 30))) {
      CallSettled(ps[i], Field(v, i));
    }
  }

  /** The optional strings of a tunnel message. */
  const TUNNEL_STRINGS := {6, 14, 27, 28, 29, 30, 31, 32, 33, 34, 38}

  /** What can change in one part of a tunnel message in front of the peer. */
  predicate IsPlainPart(v: Value, i: nat) {
    if i == 13 then HasPlainFlags(Field(v, 13), {0, 1, 2, 3, 4, 5, 6, 7})
    else if i == 26 then HasPlainFlags(Field(v, 26), {0, 1})
    else i in TUNNEL_STRINGS ==> IsProper(Field(v, i))
  }

  lemma TunnelMsgSlots()
    ensures var ps := TunnelMsgData().parts;
            && ps[13] == Block([Flag, Flag, Flag, Flag, Flag, Flag, Flag, Flag])
            && ps[15] == Block([Long, Long, Long, Long]) && ps[26] == Block([Flag, Flag, Long])
            && ps[35] == Tiebreaker() && ps[39] == TunnelPeer() && ps[40] == TunnelStats()
  {
  }

  lemma TunnelMsgCalls(i: nat)
    requires i < 39 && i !in {13, 15, 26, 35}
    ensures var p := TunnelMsgData().parts[i];
            p.Call? && (if i in TUNNEL_STRINGS then p.t == OptText else p.t.Int? || p.t.UInt?)
  {
  }

  lemma TunnelPartSettled(v: Value, i: nat)
    requires i < 39 && Typed(Slow(TunnelMsgData().parts[i]), Field(v, i))
    ensures Settled(Slow(TunnelMsgData().parts[i]), Field(v, i)) <==> IsPlainPart(v, i)
  {
    hide Slow, Typed, Settled, IsBoolean, IsProper;
    var p := TunnelMsgData().parts[i];
    hide TunnelMsgData;
    TunnelMsgSlots();
    if i in {13, 15, 26} {
      BlockSettled(p, Field(v, i));
    } else if i == 35 {
      NumbersSettled(p, Field(v, i));
    } else {
      TunnelMsgCalls(i);
      CallSettled(p, Field(v, i));
    }
  }

  /**
    A tunnel message arrives exactly as it was sent if and only if its ten booleans are 0
    or 1 and its eleven optional strings are empty where they are absent, and the same
    holds of its peer and of the boolean of its statistics.
   */
  lemma TunnelMsgExact(v: Value)
    requires Typed(Slow(TunnelMsgData()), v) && Fits(Slow(TunnelMsgData()), v)
    ensures Exact(Slow(TunnelMsgData()), v) <==>
              && HasPlainFlags(Field(v, 13), {0, 1, 2, 3, 4, 5, 6, 7}) && HasPlainFlags(Field(v, 26), {0, 1})
              && (forall i :: i in TUNNEL_STRINGS ==> IsProper(Field(v, i)))
              && IsPlainPeer(Field(v, 39)) && IsBoolean(Field(Field(v, 40), 30))
  {
    hide Slow, Typed, Fits, Exact, Settled, IsPlainPeer, IsBoolean, IsProper, HasPlainFlags;
    var ps := TunnelMsgData().parts;
    ExactIsSettled(Slow(TunnelMsgData()), v);
    NestSettled(ps, v);
    TunnelMsgSlots();
    forall i | 0 <= i < 39 ensures Settled(Slow(ps[i]), Field(v, i)) <==> IsPlainPart(v, i) { TunnelPartSettled(v, i); }
    PeerSettledIff(Field(v, 39));
    StatsSettledIff(Field(v, 40));
    PlainParts(v);
    assert |ps| == 41;
    hide TunnelMsgData, IsPlainPart;
  }

  lemma PlainParts(v: Value)
    ensures (forall i :: 0 <= i < 39 ==> IsPlainPart(v, i))
       <==> HasPlainFlags(Field(v, 13), {0, 1, 2, 3, 4, 5, 6, 7}) && HasPlainFlags(Field(v, 26), {0, 1})
            && forall i :: i in TUNNEL_STRINGS ==> IsProper(Field(v, i))
  {
    hide IsProper, HasPlainFlags;
    if forall i :: 0 <= i < 39 ==> IsPlainPart(v, i) {
      assert IsPlainPart(v, 13) && IsPlainPart(v, 26);
      forall i | i in TUNNEL_STRINGS ensures IsProper(Field(v, i)) { assert IsPlainPart(v, i); }
    }
  }

  /** A list of peers fits and arrives as it was sent, however long it is. */
  lemma PeerListExact(v: Value)
    requires Typed(Slow(PeerListEntry()), v)
    ensures Fits(Slow(PeerListEntry()), v) && Exact(Slow(PeerListEntry()), v)
  {
    hide Exact, Slow, Typed, Fits, Settled;
    var ps := PeerListEntry().parts;
    EntriesAreUnlimited();
    UnlimitedFits(Slow(PeerListEntry()), v);
    ExactIsSettled(Slow(PeerListEntry()), v);
    NestSettled(ps, v);
    forall i | 0 <= i < 2 ensures Settled(Slow(ps[i]), Field(v, i)) { CallSettled(ps[i], Field(v, i)); }
    PeersSettled(Field(v, 2));
  }

  lemma EntriesAreUnlimited()
    ensures IsUnlimited(Slow(PeerListEntry())) && IsUnlimited(Slow(UserListEntry()))
  {
    EntryIsUnlimited(PeerListEntry().parts);
    EntryIsUnlimited(UserListEntry().parts);
  }

  lemma EntryIsUnlimited(ps: seq<Part>)
    requires forall i :: 0 <= i < |ps| ==> ps[i].Call? && IsUnlimited(ps[i].t)
    ensures IsUnlimited(Slow(Nest(ps)))
  {
    forall i | 0 <= i < |ps| ensures IsUnlimited(SlowAll(ps)[i]) { SlowAt(ps, i); }
  }

  lemma PeersSettled(v: Value)
    requires Typed(Slow(Call(Chain(Peer()))), v)
    ensures Settled(Slow(Call(Chain(Peer()))), v)
  {
    forall k | 0 <= k < |v.items| ensures Settled(Peer(), v.items[k]) {
      ElementTyped(Peer(), v.items, k);
      PeerSettled(v.items[k]);
    }
  }

  lemma PeerSettled(v: Value)
    requires Typed(Peer(), v)
    ensures Settled(Peer(), v)
  {
  }

  /**
    A list of users fits, and it arrives as it was sent if and only if the boolean of
    every entry is 0 or 1.
   */
  lemma UserListExact(v: Value)
    requires Typed(Slow(UserListEntry()), v)
    ensures Fits(Slow(UserListEntry()), v) && Field(v, 5).Many?
    ensures Exact(Slow(UserListEntry()), v) <==>
              && IsBoolean(Field(v, 2))
              && forall k :: 0 <= k < |Field(v, 5).items| ==> IsBoolean(Field(Field(v, 5).items[k], 2))
  {
    hide Exact, Slow, Typed, Fits, Settled, IsBoolean;
    var ps := UserListEntry().parts;
    EntriesAreUnlimited();
    UnlimitedFits(Slow(UserListEntry()), v);
    ExactIsSettled(Slow(UserListEntry()), v);
    NestSettled(ps, v);
    forall i | 0 <= i < 5 ensures Settled(Slow(ps[i]), Field(v, i)) <==> (i == 2 ==> IsBoolean(Field(v, 2))) {
      CallSettled(ps[i], Field(v, i));
    }
    UsersSettled(Field(v, 5));
  }

  lemma UsersSettled(v: Value)
    requires Typed(Slow(Call(Chain(User()))), v)
    ensures v.Many?
    ensures Settled(Slow(Call(Chain(User()))), v)
       <==> forall k :: 0 <= k < |v.items| ==> IsBoolean(Field(v.items[k], 2))
  {
    hide IsBoolean;
    forall k | 0 <= k < |v.items| ensures Settled(User(), v.items[k]) <==> IsBoolean(Field(v.items[k], 2)) {
      ElementTyped(User(), v.items, k);
      UserSettled(v.items[k]);
    }
    hide User, Field;
  }

  lemma UserSettled(v: Value)
    requires Typed(User(), v)
    ensures Settled(User(), v) <==> IsBoolean(Field(v, 2))
  {
    hide IsBoolean;
    var ts := User().fields;
    forall i | 0 <= i < 5 ensures Settled(ts[i], v.items[i]) <==> (i == 2 ==> IsBoolean(v.items[2])) {}
  }
}
