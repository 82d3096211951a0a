/**
  The host table of wiviz.c: 257 slots, open addressing with a linear probe that gives
  up after 129 steps and then overwrites the slot it stands on.
 */
module HostTable {
  import opened Words
  import opened Wrappers

  type Mac = m: seq<byte> | |m| == 6 witness [0, 0, 0, 0, 0, 0]

  datatype HostType = Unknown | AP | Sta | AdhocHub

  /** `hasApInfo` and `hasStaInfo`: the record behind the pointer has been allocated. */
  datatype Host = Host(occupied: bool, mac: Mac, hostType: HostType, lastSeen: int, hasApInfo: bool, hasStaInfo: bool)

  const MAX_HOSTS := 257
  const MAX_PROBES := MAX_HOSTS / 2

  /** The farthest slot from its hash that an entry can get. */
  const FAR := MAX_PROBES + 1

  function Hash(mac: Mac): (i: nat)
    ensures i < MAX_HOSTS
  {
    (mac[5] + mac[4] * 256) % MAX_HOSTS
  }

  /** The slot `d` steps behind slot `h`, and the number of steps from `h` to `i`. */
  function Slot(h: nat, d: nat): (i: nat)
    requires h < MAX_HOSTS && d < MAX_HOSTS
    ensures i < MAX_HOSTS && Distance(h, i) == d
  {
    if h + d < MAX_HOSTS then h + d else h + d - MAX_HOSTS
  }

  function Distance(h: nat, i: nat): nat
    requires h < MAX_HOSTS && i < MAX_HOSTS
  {
    if h <= i then i - h else i + MAX_HOSTS - h
  }

  type Table = t: seq<Host> | |t| == MAX_HOSTS witness seq(MAX_HOSTS, _ => FREE)

  const FREE := Host(false, [0, 0, 0, 0, 0, 0], Unknown, 0, false, false)

  function Empty(): Table {
    seq(MAX_HOSTS, _ => FREE)
  }

  // ---- What one call does ----

  /** The probe stops at a free slot or at the one with this address. */
  predicate Stops(host: Host, mac: Mac) {
    !host.occupied || host.mac == mac
  }

  /** The distance at which the probe ends. */
  function Probe(t: Table, mac: Mac, d: nat): (end: nat)
    requires d <= FAR
    ensures d <= end <= FAR
    ensures forall e :: d <= e < end ==> !Stops(t[Slot(Hash(mac), e)], mac)
    ensures end < FAR ==> Stops(t[Slot(Hash(mac), end)], mac)
    decreases FAR - d
  {
    if d > MAX_PROBES || Stops(t[Slot(Hash(mac), d)], mac) then d else Probe(t, mac, d + 1)
  }

  function Landing(t: Table, mac: Mac): (i: nat)
    ensures i < MAX_HOSTS
  {
    Slot(Hash(mac), Probe(t, mac, 0))
  }

  function Seen(host: Host, mac: Mac, hostType: HostType, now: int): Host {
    Host(true, mac, hostType, now,
         host.hasApInfo || hostType == AP, host.hasStaInfo || hostType == Sta)
  }

  /** The table after a call. */
  function Touch(t: Table, mac: Mac, hostType: HostType, now: int): Table {
    var i := Landing(t, mac);
    t[i := Seen(t[i], mac, hostType, now)]
  }

  /** The probe of gotHost: the slot where it ends. */
  method FindSlot(hosts: array<Host>, mac: Mac) returns (i: nat)
    requires hosts.Length == MAX_HOSTS
    ensures i == Landing(hosts[..], mac)
  {
    ghost var t: Table := hosts[..];
    i := (mac[5] + mac[4] * 256) % MAX_HOSTS;
    assert i == Hash(mac);
    hide Hash;
    var c := 0;
    while hosts[i].occupied && hosts[i].mac != mac
      invariant 0 <= c <= MAX_PROBES
      invariant i == Slot(Hash(mac), c)
      invariant Probe(t, mac, 0) == Probe(t, mac, c)
      decreases MAX_PROBES - c
    {
      i, c := i + 1, c + 1;
      if i >= MAX_HOSTS {
        i := 0;
      }
      if c > MAX_PROBES {
        break;
      }
    }
  }

  method GotHost(hosts: array<Host>, mac: Mac, hostType: HostType, now: int) returns (i: nat)
    requires hosts.Length == MAX_HOSTS
    modifies hosts
    ensures i == Landing(old(hosts[..]), mac)
    ensures hosts[..] == Touch(old(hosts[..]), mac, hostType, now)
  {
    hide Seen, Landing;
    i := FindSlot(hosts, mac);
    var h := hosts[i];
    h := h.(occupied := true, lastSeen := now, hostType := hostType, mac := mac);
    if h.hostType == AP && !h.hasApInfo {
      h := h.(hasApInfo := true);
    }
    if h.hostType == Sta && !h.hasStaInfo {
      h := h.(hasStaInfo := true);
    }
    assert h == Seen(hosts[i], mac, hostType, now) by { SeenIs(hosts[i], mac, hostType, now); }
    hosts[i] := h;
  }

  lemma SeenIs(host: Host, mac: Mac, hostType: HostType, now: int)
    ensures Seen(host, mac, hostType, now)
         == Host(true, mac, hostType, now, host.hasApInfo || hostType == AP, host.hasStaInfo || hostType == Sta)
  {
  }

  // ---- What every call keeps ----

  ghost predicate Unique(t: Table) {
    forall i, j :: 0 <= i < j < MAX_HOSTS && t[i].occupied && t[j].occupied ==> t[i].mac != t[j].mac
  }

  /** The entry in slot `i` can be found: it is near its hash and nothing before it is free. */
  predicate Reachable(t: Table, i: nat)
    requires i < MAX_HOSTS
  {
    && Distance(Hash(t[i].mac), i) <= FAR
    && forall e :: 0 <= e < Distance(Hash(t[i].mac), i) ==> t[Slot(Hash(t[i].mac), e)].occupied
  }

  /** The records that printing a host of this type follows have been allocated. */
  predicate Complete(host: Host) {
    && (host.hostType == Sta ==> host.hasStaInfo)
    && (host.hostType in {AP, AdhocHub} ==> host.hasApInfo)
  }

  ghost predicate Sound(t: Table) {
    && Unique(t)
    && (forall i :: 0 <= i < MAX_HOSTS && t[i].occupied ==> Reachable(t, i))
    && (forall i :: 0 <= i < MAX_HOSTS ==> Complete(t[i]))
  }

  lemma EmptyIsSound()
    ensures Sound(Empty())
  {
  }

  lemma HashNumber(mac: Mac)
    ensures Hash(mac) == (256 * mac[4] as int + mac[5]) % 257
  {
  }

  lemma Cyclic(h: nat, i: nat)
    requires h < 257 && i < 257
    ensures (i - h) % 257 == Distance(h, i) && Slot(h, Distance(h, i)) == i
  {
  }

  /** The table in numbers: 257 slots, the hash, and no entry farther than 129 slots from its own. */
  lemma TableNumbers(t: Table, i: nat)
    requires Sound(t) && i < 257 && t[i].occupied
    ensures |t| == 257 && Hash(t[i].mac) == (256 * t[i].mac[4] as int + t[i].mac[5]) % 257
    ensures (i - Hash(t[i].mac)) % 257 <= 129
    ensures forall j :: 0 <= j < 257 && (j - Hash(t[i].mac)) % 257 < (i - Hash(t[i].mac)) % 257 ==> t[j].occupied
  {
    var h := Hash(t[i].mac);
    assert Reachable(t, i);
    HashNumber(t[i].mac);
    Cyclic(h, i);
    hide Hash;
    forall j | 0 <= j < 257 && (j - h) % 257 < (i - h) % 257 ensures t[j].occupied {
      Cyclic(h, j);
      assert t[Slot(h, Distance(h, j))].occupied;
    }
  }

  /** An address in the table is found where it is. */
  lemma Found(t: Table, mac: Mac, i: nat)
    requires Sound(t) && i < MAX_HOSTS && t[i].occupied && t[i].mac == mac
    ensures Landing(t, mac) == i
  {
    var h, end := Hash(mac), Probe(t, mac, 0);
    assert Reachable(t, i);
    var d := Distance(h, i);
    assert Slot(h, d) == i;
  }

  /** What a call leaves: the slot returned holds the address, and no other slot changed. */
  lemma TouchIsLocal(t: Table, mac: Mac, hostType: HostType, now: int)
    requires hostType in {AP, Sta}
    ensures var t' := Touch(t, mac, hostType, now);
            var i := Landing(t, mac);
            && t'[i].occupied && t'[i].mac == mac && t'[i].hostType == hostType && Complete(t'[i])
            && (t[i].hasApInfo ==> t'[i].hasApInfo) && (t[i].hasStaInfo ==> t'[i].hasStaInfo)
            && forall j :: 0 <= j < MAX_HOSTS && j != i ==> t'[j] == t[j]
  {
  }

  lemma TouchKeepsSound(t: Table, mac: Mac, hostType: HostType, now: int)
    requires Sound(t) && hostType in {AP, Sta}
    ensures Sound(Touch(t, mac, hostType, now))
  {
    var i, t' := Landing(t, mac), Touch(t, mac, hostType, now);
    TouchIsLocal(t, mac, hostType, now);
    forall j | 0 <= j < MAX_HOSTS && j != i && t'[j].occupied ensures t'[j].mac != mac {
      if t[j].mac == mac { Found(t, mac, j); }
    }
    forall j | 0 <= j < MAX_HOSTS && t'[j].occupied ensures Reachable(t', j) {
      if j != i { assert Reachable(t, j); }
    }
  }

  // ---- Which addresses the table holds ----

  function Macs(t: Table): set<Mac> {
    set i | 0 <= i < MAX_HOSTS && t[i].occupied :: t[i].mac
  }

  /** The call overwrites the entry of another address. */
  predicate Evicts(t: Table, mac: Mac) {
    !Stops(t[Landing(t, mac)], mac)
  }

  lemma MacsOfUpdate(t: Table, i: nat, host: Host)
    requires Unique(t) && i < MAX_HOSTS && host.occupied
    ensures Macs(t[i := host]) == (if !Stops(t[i], host.mac) then Macs(t) - {t[i].mac} else Macs(t)) + {host.mac}
  {
    var t' := t[i := host];
    var kept := (if !Stops(t[i], host.mac) then Macs(t) - {t[i].mac} else Macs(t)) + {host.mac};
    forall m | m in Macs(t') ensures m in kept {
      var j :| 0 <= j < MAX_HOSTS && t'[j].occupied && t'[j].mac == m;
      if j != i { assert t[j].mac == m; }
    }
    forall m | m in kept ensures m in Macs(t') {
      if m == host.mac {
        assert t'[i].mac == m;
      } else {
        var j :| 0 <= j < MAX_HOSTS && t[j].occupied && t[j].mac == m;
        assert j != i;
        assert t'[j].mac == m;
      }
    }
  }

  lemma TouchMacs(t: Table, mac: Mac, hostType: HostType, now: int)
    requires Sound(t)
    ensures Macs(Touch(t, mac, hostType, now)) ==
            (if Evicts(t, mac) then Macs(t) - {t[Landing(t, mac)].mac} else Macs(t)) + {mac}
  {
    hide Macs, Landing, Stops, Unique;
    var i := Landing(t, mac);
    MacsOfUpdate(t, i, Seen(t[i], mac, hostType, now));
  }

  /** A call loses no address exactly when it evicts none. */
  lemma KeepsAllIff(t: Table, mac: Mac, hostType: HostType, now: int)
    requires Sound(t)
    ensures Macs(Touch(t, mac, hostType, now)) == Macs(t) + {mac} <==> !Evicts(t, mac)
  {
    TouchMacs(t, mac, hostType, now);
    var i := Landing(t, mac);
    hide Landing, Touch, Sound;
    if Evicts(t, mac) {
      assert t[i].mac in Macs(t) && t[i].mac != mac;
      hide Macs, Evicts;
      assert t[i].mac !in Macs(Touch(t, mac, hostType, now));
    }
  }

  /** The addresses in the first `n` slots from `h` on. */
  function Run(t: Table, h: nat, n: nat): set<Mac>
    requires h < MAX_HOSTS && n <= MAX_HOSTS
  {
    if n == 0 then {} else Run(t, h, n - 1) + {t[Slot(h, n - 1)].mac}
  }

  lemma DifferentSlots(t: Table, mac: Mac, d: nat, e: nat)
    requires Unique(t) && d < e < MAX_HOSTS
    requires !Stops(t[Slot(Hash(mac), d)], mac) && !Stops(t[Slot(Hash(mac), e)], mac)
    ensures t[Slot(Hash(mac), d)].mac != t[Slot(Hash(mac), e)].mac
  {
    hide Hash;
    assert Slot(Hash(mac), d) != Slot(Hash(mac), e);
  }

  lemma {:induction false} RunMember(t: Table, h: nat, n: nat, m: Mac)
    requires h < MAX_HOSTS && n <= MAX_HOSTS && m in Run(t, h, n)
    ensures exists e :: 0 <= e < n && t[Slot(h, e)].mac == m
    decreases n
  {
    hide Slot;
    if m == t[Slot(h, n - 1)].mac {
    } else {
      RunMember(t, h, n - 1, m);
    }
  }

  lemma {:induction false} RunInTable(t: Table, mac: Mac, n: nat)
    requires n <= MAX_HOSTS
    requires forall e :: 0 <= e < n ==> !Stops(t[Slot(Hash(mac), e)], mac)
    ensures Run(t, Hash(mac), n) <= Macs(t) - {mac}
    decreases n
  {
    if n == 0 {
    } else {
      var last := Slot(Hash(mac), n - 1);
      assert !Stops(t[last], mac) && t[last].mac in Macs(t) - {mac};
      RunInTable(t, mac, n - 1);
    }
  }

  lemma NotInRun(t: Table, mac: Mac, n: nat)
    requires Unique(t) && n < MAX_HOSTS
    requires forall e :: 0 <= e <= n ==> !Stops(t[Slot(Hash(mac), e)], mac)
    ensures t[Slot(Hash(mac), n)].mac !in Run(t, Hash(mac), n)
  {
    hide Hash, Slot, Unique, Stops;
    var h := Hash(mac);
    var last := t[Slot(h, n)].mac;
    forall e | 0 <= e < n ensures t[Slot(h, e)].mac != last { DifferentSlots(t, mac, e, n); }
    if last in Run(t, h, n) { RunMember(t, h, n, last); }
  }

  lemma {:induction false} RunSize(t: Table, mac: Mac, n: nat)
    requires Unique(t) && n <= MAX_HOSTS
    requires forall e :: 0 <= e < n ==> !Stops(t[Slot(Hash(mac), e)], mac)
    ensures |Run(t, Hash(mac), n)| == n
    decreases n
  {
    hide Hash, Slot, Unique, Stops;
    if n == 0 {
    } else {
      RunSize(t, mac, n - 1);
      NotInRun(t, mac, n - 1);
    }
  }

  lemma EndOfRun(t: Table, mac: Mac)
    requires Evicts(t, mac)
    ensures forall e :: 0 <= e < FAR + 1 ==> !Stops(t[Slot(Hash(mac), e)], mac)
  {
    assert Probe(t, mac, 0) == FAR;
  }

  /** An eviction needs 130 other addresses in the table. */
  lemma EvictionNeedsCrowd(t: Table, mac: Mac)
    requires Sound(t) && Evicts(t, mac)
    ensures |Macs(t) - {mac}| >= 130
  {
    hide Macs, Run, Landing;
    EndOfRun(t, mac);
    RunInTable(t, mac, FAR + 1);
    RunSize(t, mac, FAR + 1);
    SubsetSize(Run(t, Hash(mac), FAR + 1), Macs(t) - {mac});
  }

  lemma {:induction false} SubsetSize<T>(a: set<T>, b: set<T>)
    requires a <= b
    ensures |a| <= |b|
  {
    if a == {} {
    } else {
      var x :| x in a;
      SubsetSize(a - {x}, b - {x});
    }
  }

  // ---- Packets ----

  /**
    A packet that is not ignored.  `bss` is the network it names, if that is not zero;
    `adhocBeacon` marks a beacon of an ad hoc network.
   */
  datatype Packet = Packet(src: Mac, hostType: HostType, bss: Option<Mac>, adhocBeacon: bool, now: int)

  predicate Accepted(p: Packet) {
    p.hostType in {AP, Sta}
  }

  predicate Emerges(p: Packet) {
    p.hostType == Sta && p.bss.Some?
  }

  function MarkAdhoc(t: Table, i: nat): Table
    requires i < MAX_HOSTS
  {
    t[i := t[i].(hostType := AdhocHub)]
  }

  /** The table after a packet: its sender, and for a station also its network. */
  function Apply(t: Table, p: Packet): Table {
    var t1 := Touch(t, p.src, p.hostType, p.now);
    if !Emerges(p) then t1
    else
      var t2 := Touch(t1, p.bss.value, AP, p.now);
      if p.adhocBeacon then MarkAdhoc(t2, Landing(t1, p.bss.value)) else t2
  }

  /** Every record behind a pointer that the source follows has been allocated. */
  method DealWithPacket(hosts: array<Host>, p: Packet)
    requires hosts.Length == MAX_HOSTS && Sound(hosts[..]) && Accepted(p)
    modifies hosts
    ensures hosts[..] == Apply(old(hosts[..]), p)
    ensures Sound(hosts[..])
  {
    hide Touch, Landing, Sound;
    ghost var t: Table := hosts[..];
    ghost var t1 := Touch(t, p.src, p.hostType, p.now);
    TouchIsLocal(t, p.src, p.hostType, p.now);
    ApplyKeepsSound(t, p);
    var host := GotHost(hosts, p.src, p.hostType, p.now);
    if p.hostType == Sta && p.bss.Some? {
      assert hosts[host].hasStaInfo;
      TouchIsLocal(t1, p.bss.value, AP, p.now);
      var emergebss := GotHost(hosts, p.bss.value, AP, p.now);
      assert hosts[emergebss].hasApInfo && hosts[host].hasStaInfo;
      if p.adhocBeacon {
        hosts[emergebss] := hosts[emergebss].(hostType := AdhocHub);
      }
    } else if p.hostType == AP {
      assert hosts[host].hasApInfo;
    }
  }

  lemma MarkKeeps(t: Table, i: nat)
    requires i < MAX_HOSTS && t[i].hasApInfo
    ensures Sound(t) ==> Sound(MarkAdhoc(t, i))
    ensures Macs(MarkAdhoc(t, i)) == Macs(t)
  {
    var t' := MarkAdhoc(t, i);
    assert forall j :: 0 <= j < MAX_HOSTS ==> t'[j].occupied == t[j].occupied && t'[j].mac == t[j].mac;
    if Sound(t) {
      forall j | 0 <= j < MAX_HOSTS && t'[j].occupied ensures Reachable(t', j) { assert Reachable(t, j); }
    }
  }

  /** The network that a station names is in the table afterwards, as an ad hoc one after an ad hoc beacon. */
  lemma NetworkIsMarked(t: Table, p: Packet)
    requires Emerges(p)
    ensures var t1 := Touch(t, p.src, p.hostType, p.now);
            var host := Apply(t, p)[Landing(t1, p.bss.value)];
            && host.occupied && host.mac == p.bss.value && host.hasApInfo && host.lastSeen == p.now
            && host.hostType == if p.adhocBeacon then AdhocHub else AP
  {
    var t1 := Touch(t, p.src, p.hostType, p.now);
    TouchIsLocal(t1, p.bss.value, AP, p.now);
    hide Landing;
  }

  lemma ApplyKeepsSound(t: Table, p: Packet)
    requires Sound(t) && Accepted(p)
    ensures Sound(Apply(t, p))
  {
    hide Sound, Touch, Landing, MarkAdhoc;
    TouchKeepsSound(t, p.src, p.hostType, p.now);
    if Emerges(p) {
      var t1 := Touch(t, p.src, p.hostType, p.now);
      TouchKeepsSound(t1, p.bss.value, AP, p.now);
      TouchIsLocal(t1, p.bss.value, AP, p.now);
      MarkKeeps(Touch(t1, p.bss.value, AP, p.now), Landing(t1, p.bss.value));
    }
  }

  function Addresses(p: Packet): set<Mac> {
    if Emerges(p) then {p.src, p.bss.value} else {p.src}
  }

  lemma ApplyMacs(t: Table, p: Packet, all: set<Mac>)
    requires Sound(t) && Accepted(p) && |all| <= FAR + 1
    requires Macs(t) <= all && Addresses(p) <= all
    ensures Macs(Apply(t, p)) == Macs(t) + Addresses(p)
  {
    hide Sound, Touch, Landing, MarkAdhoc, Macs, Evicts;
    NoEviction(t, p.src, all);
    TouchMacs(t, p.src, p.hostType, p.now);
    if Emerges(p) {
      var t1 := Touch(t, p.src, p.hostType, p.now);
      TouchKeepsSound(t, p.src, p.hostType, p.now);
      NoEviction(t1, p.bss.value, all);
      TouchMacs(t1, p.bss.value, AP, p.now);
      TouchIsLocal(t1, p.bss.value, AP, p.now);
      MarkKeeps(Touch(t1, p.bss.value, AP, p.now), Landing(t1, p.bss.value));
    }
  }

  // ---- Whole runs ----

  function After(packets: seq<Packet>): Table {
    if packets == [] then Empty() else Apply(After(packets[..|packets| - 1]), packets[|packets| - 1])
  }

  function Requested(packets: seq<Packet>): set<Mac> {
    if packets == [] then {} else Requested(packets[..|packets| - 1]) + Addresses(packets[|packets| - 1])
  }

  predicate AllAccepted(packets: seq<Packet>) {
    forall i :: 0 <= i < |packets| ==> Accepted(packets[i])
  }

  /** Every reachable table is sound. */
  lemma {:induction false} AlwaysSound(packets: seq<Packet>)
    requires AllAccepted(packets)
    ensures Sound(After(packets))
    decreases packets
  {
    if packets == [] {
      EmptyIsSound();
    } else {
      AlwaysSound(packets[..|packets| - 1]);
      ApplyKeepsSound(After(packets[..|packets| - 1]), packets[|packets| - 1]);
    }
  }

  lemma NoEviction(t: Table, mac: Mac, all: set<Mac>)
    requires Sound(t) && Macs(t) <= all && mac in all && |all| <= FAR + 1
    ensures !Evicts(t, mac)
  {
    hide Sound, Macs, Evicts;
    if Evicts(t, mac) {
      EvictionNeedsCrowd(t, mac);
      SubsetSize(Macs(t) - {mac}, all - {mac});
    }
  }

  /** As long as there are no more than 130 addresses, the table holds exactly those seen. */
  lemma {:induction false} FewHostsLoseNothing(packets: seq<Packet>)
    requires AllAccepted(packets) && |Requested(packets)| <= 130
    ensures Macs(After(packets)) == Requested(packets)
    decreases packets
  {
    if packets == [] {
      assert Macs(Empty()) == {};
    } else {
      hide Sound, Macs, Apply, Addresses;
      var before, last := packets[..|packets| - 1], packets[|packets| - 1];
      SubsetSize(Requested(before), Requested(packets));
      FewHostsLoseNothing(before);
      AlwaysSound(before);
      ApplyMacs(After(before), last, Requested(packets));
    }
  }

  // ---- When a run of calls loses an address ----

  datatype Call = Call(mac: Mac, hostType: HostType, now: int)

  function AfterCalls(calls: seq<Call>): Table {
    if calls == [] then Empty()
    else
      var last := calls[|calls| - 1];
      Touch(AfterCalls(calls[..|calls| - 1]), last.mac, last.hostType, last.now)
  }

  function Called(calls: seq<Call>): set<Mac> {
    set i | 0 <= i < |calls| :: calls[i].mac
  }

  predicate AllTyped(calls: seq<Call>) {
    forall i :: 0 <= i < |calls| ==> calls[i].hostType in {AP, Sta}
  }

  lemma {:induction false} CallsKeepSound(calls: seq<Call>)
    requires AllTyped(calls)
    ensures Sound(AfterCalls(calls))
    decreases |calls|
  {
    hide Sound, Touch;
    if calls == [] {
      EmptyIsSound();
    } else {
      var front, last := calls[..|calls| - 1], calls[|calls| - 1];
      CallsKeepSound(front);
      TouchKeepsSound(AfterCalls(front), last.mac, last.hostType, last.now);
    }
  }

  /** The table holds the address of every call so far. */
  predicate HoldsAll(calls: seq<Call>) {
    Macs(AfterCalls(calls)) == Called(calls)
  }

  predicate EvictsAt(calls: seq<Call>, k: nat)
    requires k < |calls|
  {
    Evicts(AfterCalls(calls[..k]), calls[k].mac)
  }

  lemma NextHoldsAll(calls: seq<Call>, k: nat)
    requires AllTyped(calls) && k < |calls| && HoldsAll(calls[..k])
    ensures HoldsAll(calls[..k + 1]) <==> !EvictsAt(calls, k)
  {
    hide Sound, Touch, Macs, Evicts;
    var front, call := calls[..k], calls[k];
    assert calls[..k + 1][..k] == front;
    CallsKeepSound(front);
    KeepsAllIff(AfterCalls(front), call.mac, call.hostType, call.now);
    CalledNext(calls, k);
    hide Called;
  }

  lemma CalledNext(calls: seq<Call>, k: nat)
    requires k < |calls|
    ensures Called(calls[..k + 1]) == Called(calls[..k]) + {calls[k].mac}
  {
    var a, b := Called(calls[..k + 1]), Called(calls[..k]) + {calls[k].mac};
    forall m | m in b ensures m in a {
      if m == calls[k].mac {
        assert calls[..k + 1][k].mac == m;
      } else {
        var i :| 0 <= i < k && calls[..k][i].mac == m;
        assert calls[..k + 1][i].mac == m;
      }
    }
    forall m | m in a ensures m in b {
      var i :| 0 <= i < k + 1 && calls[..k + 1][i].mac == m;
      if i < k { assert calls[..k][i].mac == m; }
    }
  }

  /** Over a run of calls, no address is ever missing if and only if no call evicts one. */
  lemma NothingLostIff(calls: seq<Call>)
    requires AllTyped(calls)
    ensures (forall k :: 0 <= k <= |calls| ==> HoldsAll(calls[..k]))
       <==> forall k :: 0 <= k < |calls| ==> !EvictsAt(calls, k)
  {
    if forall k :: 0 <= k < |calls| ==> !EvictsAt(calls, k) {
      forall k | 0 <= k <= |calls| ensures HoldsAll(calls[..k]) { HoldsAllUpTo(calls, k); }
    }
    hide HoldsAll, EvictsAt;
    if forall k :: 0 <= k <= |calls| ==> HoldsAll(calls[..k]) {
      forall k | 0 <= k < |calls| ensures !EvictsAt(calls, k) {
        assert HoldsAll(calls[..k]) && HoldsAll(calls[..k + 1]);
        NextHoldsAll(calls, k);
      }
    }
  }

  lemma {:induction false} HoldsAllUpTo(calls: seq<Call>, k: nat)
    requires AllTyped(calls) && k <= |calls|
    requires forall i :: 0 <= i < k ==> !EvictsAt(calls, i)
    ensures HoldsAll(calls[..k])
    decreases k
  {
    if k == 0 {
      EmptyHoldsAll(calls[..0]);
    } else {
      hide HoldsAll, EvictsAt;
      HoldsAllUpTo(calls, k - 1);
      NextHoldsAll(calls, k - 1);
    }
  }

  lemma EmptyHoldsAll(calls: seq<Call>)
    requires calls == []
    ensures HoldsAll(calls)
  {
    assert Macs(Empty()) == {};
  }

  // ---- The bound is exact ----

  /** Addresses that all hash to slot 0. */
  function Crowd(n: nat): (packets: seq<Packet>)
    requires n <= 256
    ensures |packets| == n
  {
    if n == 0 then [] else Crowd(n - 1) + [Packet([n - 1, 0, 0, 0, 0, 0], AP, None, false, 0)]
  }

  predicate FilledTo(t: Table, n: nat)
    requires n <= MAX_HOSTS
  {
    && (forall e :: 0 <= e < n ==> t[e].occupied && t[e].mac[0] == e && t[e].mac[1..] == [0, 0, 0, 0, 0])
    && (forall e :: n <= e < MAX_HOSTS ==> !t[e].occupied)
  }

  lemma CrowdHash(mac: Mac, n: nat)
    requires n < 256 && mac == [n, 0, 0, 0, 0, 0]
    ensures Hash(mac) == 0
    ensures mac[1..] == [0, 0, 0, 0, 0]
  {
  }

  lemma CrowdStep(t: Table, mac: Mac, n: nat)
    requires n <= FAR + 1 && FilledTo(t, n) && mac == [n, 0, 0, 0, 0, 0]
    ensures Landing(t, mac) == if n <= FAR then n else FAR
  {
    CrowdHash(mac, n);
    hide Hash;
    forall e | 0 <= e < n ensures Slot(0, e) == e && !Stops(t[e], mac) { assert t[e].mac[0] != mac[0]; }
    assert n <= MAX_PROBES ==> Slot(0, n) == n && Stops(t[n], mac);
    var end := Probe(t, mac, 0);
  }

  lemma FillStep(t: Table, mac: Mac, n: nat)
    requires n <= FAR && FilledTo(t, n) && mac == [n, 0, 0, 0, 0, 0]
    ensures FilledTo(Touch(t, mac, AP, 0), n + 1)
  {
    hide Touch, Landing, Hash, Complete;
    CrowdStep(t, mac, n);
    CrowdHash(mac, n);
    TouchIsLocal(t, mac, AP, 0);
  }

  lemma CrowdApplied(n: nat)
    requires 0 < n <= 256
    ensures After(Crowd(n)) == Touch(After(Crowd(n - 1)), [n - 1, 0, 0, 0, 0, 0], AP, 0)
  {
    hide Touch;
    var packets := Crowd(n);
    assert packets[..n - 1] == Crowd(n - 1);
  }

  lemma {:induction false} CrowdFills(n: nat)
    requires n <= FAR + 1
    ensures FilledTo(After(Crowd(n)), n)
    decreases n
  {
    hide Touch, FilledTo, Crowd, After;
    if n == 0 {
      NoCrowd();
    } else {
      CrowdFills(n - 1);
      CrowdApplied(n);
      FillStep(After(Crowd(n - 1)), [n - 1, 0, 0, 0, 0, 0], n - 1);
    }
  }

  lemma NoCrowd()
    ensures FilledTo(After(Crowd(0)), 0)
  {
    hide FilledTo;
    EmptyIsFilledTo();
  }

  lemma EmptyIsFilledTo()
    ensures FilledTo(Empty(), 0)
  {
  }

  lemma CrowdEvicts(t: Table, mac: Mac, host: Mac)
    requires FilledTo(t, FAR + 1) && Sound(t)
    requires mac == [FAR + 1, 0, 0, 0, 0, 0] && host == [FAR, 0, 0, 0, 0, 0]
    ensures host !in Macs(Touch(t, mac, AP, 0))
  {
    hide Landing, Touch, Macs, Sound, FilledTo;
    CrowdStep(t, mac, FAR + 1);
    CrowdAt(t, FAR);
    assert host[0] != mac[0];
    TouchMacs(t, mac, AP, 0);
  }

  lemma CrowdAt(t: Table, e: nat)
    requires e <= FAR && FilledTo(t, FAR + 1)
    ensures t[e].occupied && t[e].mac == [e, 0, 0, 0, 0, 0]
  {
    var m := t[e].mac;
    assert m == [m[0]] + m[1..];
  }

  lemma CrowdRequests(n: nat)
    requires 1 < n <= 256
    ensures [n - 2, 0, 0, 0, 0, 0] in Requested(Crowd(n))
  {
    var packets := Crowd(n);
    assert packets[..n - 1] == Crowd(n - 1) && Crowd(n - 1)[..n - 2] == Crowd(n - 2);
    assert Addresses(Crowd(n - 1)[n - 2]) == {[n - 2, 0, 0, 0, 0, 0]};
  }

  /** With 131 addresses one can be lost. */
  lemma OneMoreIsLost()
    ensures AllAccepted(Crowd(131))
    ensures [129, 0, 0, 0, 0, 0] in Requested(Crowd(131))
    ensures [129, 0, 0, 0, 0, 0] !in Macs(After(Crowd(131)))
  {
    hide Touch, Sound, Macs, FilledTo, Crowd, After, AllAccepted, Requested;
    CrowdFills(FAR + 1);
    CrowdAccepted(FAR + 1);
    CrowdAccepted(FAR + 2);
    CrowdRequests(FAR + 2);
    AlwaysSound(Crowd(FAR + 1));
    CrowdApplied(FAR + 2);
    CrowdEvicts(After(Crowd(FAR + 1)), [FAR + 1, 0, 0, 0, 0, 0], [FAR, 0, 0, 0, 0, 0]);
  }

  lemma {:induction false} CrowdAccepted(n: nat)
    requires n <= 256
    ensures AllAccepted(Crowd(n))
    decreases n
  {
    if n == 0 {
    } else {
      CrowdAccepted(n - 1);
    }
  }
}
