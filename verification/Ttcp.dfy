/**
  The UDP test of ttcp.c: start packets, numbered data packets and end packets that
  carry the number of data packets, sent over a channel that keeps the order but may
  drop packets, and the receiver that does the accounting.
 */
module Ttcp {
  import opened Words

  const START_PATTERN: seq<byte> := [1, 2, 3, 4]
  const END_PATTERN: seq<byte> := [2, 2, 2, 2]
  const PATTERN_LEN := 4
  const END_PKT_LEN := 8
  const MIN_UDP_LEN := 5

  type Packet = seq<byte>

  // ---- The sender ----

  predicate IsPrint(c: nat) {
    32 <= c <= 126
  }

  /** The filler: the printable characters over and over. */
  function Filler(n: nat): (s: seq<byte>)
    ensures |s| == n
  {
    seq(n, i requires 0 <= i < n => 32 + i % 95)
  }

  method Pattern(cp: array<byte>, cnt: nat)
    requires cnt <= cp.Length
    modifies cp
    ensures cp[..cnt] == Filler(cnt) && cp[cnt..] == old(cp[cnt..])
  {
    var c: byte := 0;
    var i := 0;
    ghost var column := 0;
    while i < cnt
      invariant 0 <= i <= cnt && column == i % 95
      invariant if column == 0 then c % 128 in {0, 127} else c % 128 == 32 + column
      invariant forall k :: 0 <= k < i ==> cp[k] == 32 + k % 95
      invariant cp[cnt..] == old(cp[cnt..])
    {
      while !IsPrint(c % 128)
        invariant c % 128 == 127 || c % 128 <= 32 + column
        invariant c % 128 < 32 || c % 128 == 127 ==> column == 0
        invariant IsPrint(c % 128) ==> c % 128 == 32 + column
        decreases if c % 128 == 127 then 128 else 127 - c % 128
      {
        c := NextChar(c);
      }
      cp[i] := c % 128;
      NextColumn(i);
      c := NextChar(c);
      column := if column == 94 then 0 else column + 1;
      i := i + 1;
    }
    assert cp[..cnt] == Filler(cnt);
  }

  /** A char counts on and wraps. */
  function NextChar(c: byte): (n: byte)
    ensures n % 128 == if c % 128 == 127 then 0 else c % 128 + 1
  {
    (c as int + 1) % 256
  }

  lemma NextColumn(i: nat)
    ensures (i + 1) % 95 == if i % 95 == 94 then 0 else i % 95 + 1
  {
  }

  function DataPacket(i: nat, buflen: nat): (p: Packet)
    requires MIN_UDP_LEN <= buflen
    ensures |p| == buflen
  {
    [i % 256] + Filler(buflen)[1..]
  }

  function DataPackets(n: nat, buflen: nat): (ps: seq<Packet>)
    requires MIN_UDP_LEN <= buflen
    ensures |ps| == n
  {
    seq(n, i requires 0 <= i < n => DataPacket(i, buflen))
  }

  function Count(nbuf: int): nat {
    if nbuf < 0 then 0 else nbuf
  }

  function EndPacket(nbuf: int): Packet {
    END_PATTERN + ToBe32(nbuf)
  }

  const STARTS: seq<Packet> := [START_PATTERN, START_PATTERN]

  function Ends(nbuf: int): (ps: seq<Packet>)
    ensures |ps| == 4
  {
    [EndPacket(nbuf), EndPacket(nbuf), EndPacket(nbuf), EndPacket(nbuf)]
  }

  /** Everything a sender puts on the wire. */
  function Sent(nbuf: int, buflen: nat): seq<Packet>
    requires MIN_UDP_LEN <= buflen
  {
    STARTS + DataPackets(Count(nbuf), buflen) + Ends(nbuf)
  }

  method MakeEndPacket(nbuf: int) returns (endPkt: Packet)
    ensures endPkt == EndPacket(nbuf)
  {
    var dataCount := nbuf;
    var b3 := dataCount % 256;
    dataCount := dataCount / 256;
    var b2 := dataCount % 256;
    dataCount := dataCount / 256;
    var b1 := dataCount % 256;
    dataCount := dataCount / 256;
    var b0 := dataCount % 256;
    endPkt := END_PATTERN + [b0, b1, b2, b3];
  }

  method Send(buf: array<byte>, buflen: nat, nbuf: int) returns (net: seq<Packet>)
    requires MIN_UDP_LEN <= buflen <= buf.Length
    modifies buf
    ensures net == Sent(nbuf, buflen)
  {
    hide EndPacket, Filler, DataPackets, Ends;
    Pattern(buf, buflen);
    net := [];
    var startCount := 2;
    while startCount > 0
      invariant 0 <= startCount <= 2 && net == STARTS[startCount..]
      invariant buf[..buflen] == Filler(buflen)
    {
      startCount := startCount - 1;
      net := net + [START_PATTERN];
    }
    var data := SendData(buf, buflen, nbuf);
    var ends := SendEnds(nbuf);
    net := net + data + ends;
  }

  /** The numbered packets: the filler with its first byte counting up. */
  method SendData(buf: array<byte>, buflen: nat, nbuf: int) returns (net: seq<Packet>)
    requires MIN_UDP_LEN <= buflen <= buf.Length && buf[..buflen] == Filler(buflen)
    modifies buf
    ensures net == DataPackets(Count(nbuf), buflen)
  {
    hide Filler, DataPacket, DataPackets;
    ghost var filled := buf[..buflen];
    buf[0] := 0;
    assert buf[..buflen] == filled[0 := 0];
    Numbered(filled, 0, buflen);
    NoData(buflen);
    net := [];
    var multi := nbuf;
    ghost var i := 0;
    while multi > 0
      invariant 0 <= i <= Count(nbuf) && (nbuf >= 0 ==> multi == nbuf - i) && (nbuf < 0 ==> multi == nbuf)
      invariant buf[..buflen] == DataPacket(i, buflen)
      invariant net == DataPackets(i, buflen)
    {
      net := net + [buf[..buflen]];
      ghost var was := buf[..buflen];
      MoreData(i, buflen);
      buf[0] := (buf[0] as int + 1) % 256;
      assert buf[..buflen] == was[0 := (was[0] as int + 1) % 256];
      multi := multi - 1;
      i := i + 1;
    }
  }

  method SendEnds(nbuf: int) returns (net: seq<Packet>)
    ensures net == Ends(nbuf)
  {
    hide EndPacket;
    var endPkt := MakeEndPacket(nbuf);
    net := [];
    var endCount := 4;
    while endCount > 0
      invariant 0 <= endCount <= 4 && net == Ends(nbuf)[endCount..]
    {
      endCount := endCount - 1;
      net := net + [endPkt];
    }
  }

  lemma Numbered(filled: seq<byte>, i: nat, buflen: nat)
    requires MIN_UDP_LEN <= buflen && filled == Filler(buflen)
    ensures filled[0 := i % 256] == DataPacket(i, buflen)
  {
  }

  lemma NoData(buflen: nat)
    requires MIN_UDP_LEN <= buflen
    ensures DataPackets(0, buflen) == []
  {
  }

  /** Counting up the first byte of a data packet gives the next one. */
  lemma MoreData(i: nat, buflen: nat)
    requires MIN_UDP_LEN <= buflen
    ensures DataPackets(i + 1, buflen) == DataPackets(i, buflen) + [DataPacket(i, buflen)]
    ensures var p := DataPacket(i, buflen);
            p[0 := (p[0] as int + 1) % 256] == DataPacket(i + 1, buflen)
  {
    hide Filler;
    NextNumber(i);
  }

  // ---- The packets, byte by byte ----

  /** What is on the wire, in numbers, and how the receiver tells the packets apart. */
  lemma WireFormat(nbuf: int, buflen: nat, i: nat)
    requires 5 <= buflen
    ensures MIN_UDP_LEN == 5 && Sent(nbuf, buflen)[..2] == [[1, 2, 3, 4], [1, 2, 3, 4]]
    ensures EndPacket(nbuf) == [2, 2, 2, 2, nbuf / 0x100_0000 % 0x100, nbuf / 0x1_0000 % 0x100,
                                nbuf / 0x100 % 0x100, nbuf % 0x100]
    ensures var p := DataPacket(i, buflen);
            && |p| == buflen && p[0] == i % 0x100
            && forall k :: 1 <= k < buflen ==> p[k] == 32 + k % 95
  {
    var n1 := nbuf / 0x100;
    var n2 := n1 / 0x100;
    assert nbuf / 0x1_0000 == n2 && nbuf / 0x100_0000 == n2 / 0x100;
    assert Sent(nbuf, buflen) == STARTS + (DataPackets(Count(nbuf), buflen) + Ends(nbuf));
  }

  lemma Recognised(buf: seq<byte>)
    ensures IsStart(buf) <==> |buf| >= 4 && buf[0] == 1 && buf[1] == 2 && buf[2] == 3 && buf[3] == 4
    ensures IsEnd(buf) <==> |buf| >= 8 && buf[0] == buf[1] == buf[2] == buf[3] == 2
  {
    if |buf| >= 4 {
      var front := buf[..4];
      assert front == [buf[0], buf[1], buf[2], buf[3]];
    }
  }

  // ---- The channel ----

  /** What is left of the first `n` packets when those with `keep[i]` false are dropped. */
  function Kept(packets: seq<Packet>, keep: seq<bool>, n: nat): seq<Packet>
    requires n <= |packets| == |keep|
  {
    if n == 0 then []
    else Kept(packets, keep, n - 1) + if keep[n - 1] then [packets[n - 1]] else []
  }

  function NumKept(keep: seq<bool>, n: nat): (k: nat)
    requires n <= |keep|
    ensures k <= n
  {
    if n == 0 then 0 else NumKept(keep, n - 1) + if keep[n - 1] then 1 else 0
  }

  /** The number of packets dropped in a row just before packet `n`. */
  function GapBefore(keep: seq<bool>, n: nat): (gap: nat)
    requires n <= |keep|
    ensures gap <= n
  {
    if n == 0 || keep[n - 1] then 0 else GapBefore(keep, n - 1) + 1
  }

  /** Packet `i` arrives, and the gap in front of it shows in the one-byte number. */
  predicate IsShown(keep: seq<bool>, i: nat)
    requires i < |keep|
  {
    keep[i] && GapBefore(keep, i) % 256 != 0
  }

  /** The delivered packets before packet `n` with a gap in front that 256 does not divide. */
  function VisibleGaps(keep: seq<bool>, n: nat): nat
    requires n <= |keep|
  {
    if n == 0 then 0
    else VisibleGaps(keep, n - 1) + if IsShown(keep, n - 1) then 1 else 0
  }

  // ---- The receiver ----

  datatype RcvState = StartWait | DataWait | DataRcv | EndTest

  datatype Receiver = Receiver(state: RcvState, starts: nat, ends: nat, data: nat, expected: nat,
                               seqNum: byte, reports: nat, buf: seq<byte>, timedOut: bool)

  datatype Config = Config(buflen: nat, seqInfo: bool)

  /** The receive buffer has room for reading a whole end packet. */
  predicate Ready(cfg: Config, buf: seq<byte>) {
    MIN_UDP_LEN <= cfg.buflen <= |buf| && END_PKT_LEN <= |buf|
  }

  function Idle(buf: seq<byte>): Receiver {
    Receiver(StartWait, 0, 0, 0, 0, 0, 0, buf, false)
  }

  predicate IsStart(buf: seq<byte>) {
    |buf| >= PATTERN_LEN && buf[..PATTERN_LEN] == START_PATTERN
  }

  predicate IsEnd(buf: seq<byte>) {
    |buf| >= END_PKT_LEN && buf[..PATTERN_LEN] == END_PATTERN
  }

  /** A packet longer than the buffer is cut; a shorter one leaves the rest of the buffer. */
  function Fill(buf: seq<byte>, buflen: nat, packet: Packet): (filled: seq<byte>)
    requires buflen <= |buf|
    ensures |filled| == |buf|
  {
    var cnt := if |packet| < buflen then |packet| else buflen;
    packet[..cnt] + buf[cnt..]
  }

  function Receive(cfg: Config, r: Receiver, packet: Packet): (r': Receiver)
    requires Ready(cfg, r.buf)
    ensures |r'.buf| == |r.buf|
  {
    if r.state == EndTest || r.timedOut then r
    else if packet == [] then r.(timedOut := true)
    else
      var buf := Fill(r.buf, cfg.buflen, packet);
      if IsStart(buf) then
        r.(starts := (r.starts + 1) % UINT32, state := DataWait, buf := buf)
      else if IsEnd(buf) then
        r.(ends := (r.ends + 1) % UINT32, state := EndTest, buf := buf, expected := FromBe32(buf[4..8]))
      else
        var outOfSeq := cfg.seqInfo && buf[0] != r.seqNum;
        r.(data := (r.data + 1) % UINT32, state := DataRcv, buf := buf,
           seqNum := if cfg.seqInfo then (buf[0] as int + 1) % 256 else r.seqNum,
           reports := if outOfSeq then r.reports + 1 else r.reports)
  }

  function Run(cfg: Config, r: Receiver, net: seq<Packet>): (r': Receiver)
    requires Ready(cfg, r.buf)
    ensures |r'.buf| == |r.buf|
  {
    if net == [] then r else Receive(cfg, Run(cfg, r, net[..|net| - 1]), net[|net| - 1])
  }

  datatype PktType = StartPktType | EndPktType | DataPktType

  method UdpRcvTest(buf: array<byte>, cfg: Config, net: seq<Packet>) returns (r: Receiver)
    requires Ready(cfg, buf[..])
    modifies buf
    ensures r == Run(cfg, Idle(old(buf[..])), net)
    ensures buf[..] == r.buf
  {
    hide Fill, IsStart, IsEnd, FromBe32, Run;
    ghost var idle := Idle(buf[..]);
    var starts: nat, ends: nat, data: nat, expected: nat, reports: nat := 0, 0, 0, 0, 0;
    var seqNum: byte := 0;
    var rcvState := StartWait;
    var i := 0;
    RunNone(cfg, idle, net[..0]);
    while rcvState != EndTest && i < |net|
      invariant 0 <= i <= |net|
      invariant Run(cfg, idle, net[..i])
             == Receiver(rcvState, starts, ends, data, expected, seqNum, reports, buf[..], false)
    {
      ghost var before := Run(cfg, idle, net[..i]);
      RunNext(cfg, idle, net, i);
      if net[i] == [] {
        RunStopped(cfg, idle, net, i + 1);
        r := Receiver(rcvState, starts, ends, data, expected, seqNum, reports, buf[..], true);
        return;
      }
      Nread(buf, cfg.buflen, net[i]);
      var pktType;
      if IsStart(buf[..]) {
        pktType := StartPktType;
        starts := (starts + 1) % UINT32;
      } else if IsEnd(buf[..]) {
        expected := FromBe32(buf[4..8]);
        assert buf[..][4..8] == buf[4..8];
        pktType := EndPktType;
        ends := (ends + 1) % UINT32;
      } else {
        data := (data + 1) % UINT32;
        pktType := DataPktType;
      }
      match rcvState {
        case StartWait =>
          if pktType == StartPktType { rcvState := DataWait; }
          else if pktType == DataPktType { rcvState := DataRcv; }
          else if pktType == EndPktType { rcvState := EndTest; }
        case DataWait =>
          if pktType == DataPktType { rcvState := DataRcv; }
          else if pktType == EndPktType { rcvState := EndTest; }
        case _ =>
          if pktType == StartPktType { rcvState := DataWait; }
          else if pktType == EndPktType { rcvState := EndTest; }
      }
      if pktType == DataPktType && cfg.seqInfo {
        var bufSeq := buf[0];
        if bufSeq != seqNum {
          reports := reports + 1;
          seqNum := bufSeq;
        }
        seqNum := (seqNum as int + 1) % 256;
      }
      i := i + 1;
    }
    r := Receiver(rcvState, starts, ends, data, expected, seqNum, reports, buf[..], false);
    if i < |net| { RunStopped(cfg, idle, net, i); }
    assert net[..|net|] == net;
  }

  lemma RunNone(cfg: Config, r: Receiver, net: seq<Packet>)
    requires Ready(cfg, r.buf) && net == []
    ensures Run(cfg, r, net) == r
  {
  }

  lemma RunNext(cfg: Config, r: Receiver, net: seq<Packet>, i: nat)
    requires Ready(cfg, r.buf) && i < |net|
    ensures Run(cfg, r, net[..i + 1]) == Receive(cfg, Run(cfg, r, net[..i]), net[i])
  {
    hide Receive;
    assert net[..i + 1][..i] == net[..i];
  }

  /** One datagram is copied to the front of the buffer. */
  method Nread(buf: array<byte>, buflen: nat, packet: Packet)
    requires buflen <= buf.Length
    modifies buf
    ensures buf[..] == Fill(old(buf[..]), buflen, packet)
  {
    var cnt := if |packet| < buflen then |packet| else buflen;
    forall k | 0 <= k < cnt {
      buf[k] := packet[k];
    }
  }

  /** Once the loop has ended, nothing more is received. */
  lemma {:induction false} RunStopped(cfg: Config, r: Receiver, net: seq<Packet>, i: nat)
    requires Ready(cfg, r.buf) && i <= |net|
    requires var r' := Run(cfg, r, net[..i]); r'.state == EndTest || r'.timedOut
    ensures Run(cfg, r, net) == Run(cfg, r, net[..i])
    decreases |net|
  {
    if i < |net| {
      var before := net[..|net| - 1];
      assert before[..i] == net[..i];
      RunStopped(cfg, r, before, i);
    } else {
      assert net[..i] == net;
    }
  }

  // ---- Accounting ----

  lemma {:induction false} RunConcat(cfg: Config, r: Receiver, a: seq<Packet>, b: seq<Packet>)
    requires Ready(cfg, r.buf)
    ensures Run(cfg, r, a + b) == Run(cfg, Run(cfg, r, a), b)
    decreases b
  {
    if b == [] {
      assert a + b == a;
    } else {
      assert (a + b)[..|a + b| - 1] == a + b[..|b| - 1];
      RunConcat(cfg, r, a, b[..|b| - 1]);
    }
  }

  lemma {:induction false} KeptConcat(a: seq<Packet>, j: seq<bool>, b: seq<Packet>, k: seq<bool>, n: nat)
    requires |a| == |j| && |b| == |k| && n <= |b|
    ensures Kept(a + b, j + k, |a| + n) == Kept(a, j, |a|) + Kept(b, k, n)
    decreases n
  {
    if n == 0 {
      KeptPrefix(a, j, b, k, |a|);
    } else {
      KeptConcat(a, j, b, k, n - 1);
    }
  }

  lemma {:induction false} KeptPrefix(a: seq<Packet>, j: seq<bool>, b: seq<Packet>, k: seq<bool>, n: nat)
    requires |a| == |j| && |b| == |k| && n <= |a|
    ensures Kept(a + b, j + k, n) == Kept(a, j, n)
    decreases n
  {
    if n == 0 {
    } else {
      KeptPrefix(a, j, b, k, n - 1);
    }
  }

  lemma RunLast(cfg: Config, r: Receiver, a: seq<Packet>, last: Packet)
    requires Ready(cfg, r.buf)
    ensures Run(cfg, r, a + [last]) == Receive(cfg, Run(cfg, r, a), last)
  {
    hide Receive;
    assert (a + [last])[..|a|] == a;
  }

  /** The bytes of the buffer that no packet ever reaches. */
  predicate SameRest(cfg: Config, buf: seq<byte>, buf': seq<byte>) {
    |buf| == |buf'| && cfg.buflen <= |buf| && buf[cfg.buflen..] == buf'[cfg.buflen..]
  }

  lemma FillKeepsRest(cfg: Config, buf: seq<byte>, packet: Packet)
    requires Ready(cfg, buf)
    ensures SameRest(cfg, buf, Fill(buf, cfg.buflen, packet))
  {
  }

  /** A packet of filler is never taken for a start or an end packet. */
  lemma DataIsData(cfg: Config, buf: seq<byte>, i: nat, buflen: nat)
    requires Ready(cfg, buf) && MIN_UDP_LEN <= buflen
    ensures var filled := Fill(buf, cfg.buflen, DataPacket(i, buflen));
            !IsStart(filled) && !IsEnd(filled) && filled[0] == i % 256
  {
    var p, filled := DataPacket(i, buflen), Fill(buf, cfg.buflen, DataPacket(i, buflen));
    assert p[1] == Filler(buflen)[1] == 33;
    assert filled[1] == 33;
    assert filled[..PATTERN_LEN][1] == 33;
  }

  lemma StartIsStart(cfg: Config, buf: seq<byte>)
    requires Ready(cfg, buf)
    ensures IsStart(Fill(buf, cfg.buflen, START_PATTERN))
  {
  }

  /** What the receiver reads as the count: the sent bytes as far as they fit the buffer. */
  function CountRead(cfg: Config, buf: seq<byte>, nbuf: int): nat
    requires Ready(cfg, buf)
  {
    FromBe32(Fill(buf, cfg.buflen, EndPacket(nbuf))[4..8])
  }

  lemma EndIsEnd(cfg: Config, buf: seq<byte>, nbuf: int)
    requires Ready(cfg, buf)
    ensures var filled := Fill(buf, cfg.buflen, EndPacket(nbuf));
            !IsStart(filled) && IsEnd(filled) && FromBe32(filled[4..8]) == CountRead(cfg, buf, nbuf)
  {
    assert EndPacket(nbuf)[..PATTERN_LEN] == END_PATTERN;
    assert Fill(buf, cfg.buflen, EndPacket(nbuf))[..PATTERN_LEN] == END_PATTERN;
  }

  /** The receiver before the first data packet. */
  predicate Fresh(cfg: Config, r: Receiver, buf: seq<byte>) {
    && r.state in {StartWait, DataWait} && !r.timedOut
    && r.ends == 0 && r.data == 0 && r.expected == 0 && r.seqNum == 0 && r.reports == 0
    && SameRest(cfg, buf, r.buf)
  }

  lemma StartPhase(cfg: Config, buf: seq<byte>, keep: seq<bool>)
    requires Ready(cfg, buf) && |keep| == 2
    ensures var r := Run(cfg, Idle(buf), Kept(STARTS, keep, 2));
            Fresh(cfg, r, buf) && r.starts == NumKept(keep, 2)
  {
    StartStep(cfg, buf, keep, 0);
    StartStep(cfg, buf, keep, 1);
  }

  lemma ReceiveStart(cfg: Config, r: Receiver, buf: seq<byte>)
    requires Ready(cfg, buf) && Ready(cfg, r.buf) && Fresh(cfg, r, buf) && r.starts < 2
    ensures var r' := Receive(cfg, r, START_PATTERN);
            Fresh(cfg, r', buf) && r'.starts == r.starts + 1
  {
    StartIsStart(cfg, r.buf);
    FillKeepsRest(cfg, r.buf, START_PATTERN);
    hide Fill, IsStart, IsEnd;
  }

  lemma StartStep(cfg: Config, buf: seq<byte>, keep: seq<bool>, n: nat)
    requires Ready(cfg, buf) && |keep| == 2 && n < 2
    requires var r := Run(cfg, Idle(buf), Kept(STARTS, keep, n));
             Fresh(cfg, r, buf) && r.starts == NumKept(keep, n)
    ensures var r := Run(cfg, Idle(buf), Kept(STARTS, keep, n + 1));
            Fresh(cfg, r, buf) && r.starts == NumKept(keep, n + 1)
  {
    hide Receive, Run, Fresh;
    var before := Kept(STARTS, keep, n);
    var r := Run(cfg, Idle(buf), before);
    if keep[n] {
      RunLast(cfg, Idle(buf), before, STARTS[n]);
      assert STARTS[n] == START_PATTERN;
      ReceiveStart(cfg, r, buf);
    } else {
      assert before + [] == before;
    }
  }

  /** The receiver after `n` data packets were sent, some of which arrived. */
  predicate Counting(cfg: Config, r: Receiver, buf: seq<byte>, keep: seq<bool>, n: nat)
    requires n <= |keep|
  {
    && r.state != EndTest && !r.timedOut
    && (r.state == DataRcv <==> NumKept(keep, n) > 0)
    && r.ends == 0 && r.expected == 0
    && r.data == NumKept(keep, n)
    && (cfg.seqInfo ==> r.seqNum == (n - GapBefore(keep, n)) % 256)
    && r.reports == (if cfg.seqInfo then VisibleGaps(keep, n) else 0)
    && SameRest(cfg, buf, r.buf)
  }

  lemma GapShown(n: nat, gap: nat)
    requires gap <= n
    ensures n % 256 != (n - gap) % 256 <==> gap % 256 != 0
  {
    var g, q := gap % 256, gap / 256;
    assert (n - gap) % 256 == (n - g) % 256 by {
      ModShift(n - gap, q);
      assert n - gap + 256 * q == n - g;
    }
  }

  lemma ModShift(a: int, q: int)
    ensures (a + 256 * q) % 256 == a % 256
  {
  }

  /** What a data packet does to the receiver. */
  lemma ReceiveIsData(cfg: Config, r: Receiver, i: nat, buflen: nat)
    requires Ready(cfg, r.buf) && MIN_UDP_LEN <= buflen && r.state != EndTest && !r.timedOut
    ensures var r' := Receive(cfg, r, DataPacket(i, buflen));
            && r'.state == DataRcv && !r'.timedOut && r'.ends == r.ends && r'.expected == r.expected
            && r'.data == (r.data + 1) % UINT32 && r'.starts == r.starts
            && (cfg.seqInfo ==> r'.seqNum == (i % 256 + 1) % 256)
            && r'.reports == r.reports + (if cfg.seqInfo && r.seqNum != i % 256 then 1 else 0)
            && SameRest(cfg, r.buf, r'.buf)
  {
    DataIsData(cfg, r.buf, i, buflen);
    FillKeepsRest(cfg, r.buf, DataPacket(i, buflen));
    hide Fill, IsStart, IsEnd, DataPacket, SameRest;
  }

  lemma ReceiveData(cfg: Config, r: Receiver, buf: seq<byte>, buflen: nat, keep: seq<bool>, n: nat)
    requires Ready(cfg, buf) && Ready(cfg, r.buf) && MIN_UDP_LEN <= buflen
    requires 0 < n <= |keep| < UINT32 && keep[n - 1] && Counting(cfg, r, buf, keep, n - 1)
    ensures Counting(cfg, Receive(cfg, r, DataPacket(n - 1, buflen)), buf, keep, n)
    ensures Receive(cfg, r, DataPacket(n - 1, buflen)).starts == r.starts
  {
    hide Receive, DataPacket;
    ReceiveIsData(cfg, r, n - 1, buflen);
    GapShown(n - 1, GapBefore(keep, n - 1));
    NextNumber(n - 1);
    assert NumKept(keep, n) <= n;
    hide Fill;
  }

  lemma NextNumber(i: nat)
    ensures (i % 256 + 1) % 256 == (i + 1) % 256
  {
  }

  lemma DropData(cfg: Config, r: Receiver, buf: seq<byte>, keep: seq<bool>, n: nat)
    requires Ready(cfg, buf) && Ready(cfg, r.buf)
    requires 0 < n <= |keep| && !keep[n - 1] && Counting(cfg, r, buf, keep, n - 1)
    ensures Counting(cfg, r, buf, keep, n)
  {
  }

  lemma DataStep(cfg: Config, r0: Receiver, buf: seq<byte>, sent: seq<seq<byte>>, buflen: nat, keep: seq<bool>, n: nat)
    requires Ready(cfg, buf) && Ready(cfg, r0.buf)
    requires MIN_UDP_LEN <= buflen && 0 < n <= |keep| < UINT32
    requires |sent| == |keep| && sent[n - 1] == DataPacket(n - 1, buflen)
    requires Counting(cfg, Run(cfg, r0, Kept(sent, keep, n - 1)), buf, keep, n - 1)
    ensures Counting(cfg, Run(cfg, r0, Kept(sent, keep, n)), buf, keep, n)
    ensures Run(cfg, r0, Kept(sent, keep, n)).starts == Run(cfg, r0, Kept(sent, keep, n - 1)).starts
  {
    hide Receive, Run, Counting, DataPacket;
    var before := Kept(sent, keep, n - 1);
    var r := Run(cfg, r0, before);
    if keep[n - 1] {
      RunLast(cfg, r0, before, sent[n - 1]);
      ReceiveData(cfg, r, buf, buflen, keep, n);
    } else {
      assert before + [] == before;
      DropData(cfg, r, buf, keep, n);
    }
  }

  lemma {:induction false} DataPhase(cfg: Config, r0: Receiver, buf: seq<byte>, buflen: nat, keep: seq<bool>, n: nat)
    requires Ready(cfg, buf) && Ready(cfg, r0.buf) && Fresh(cfg, r0, buf)
    requires MIN_UDP_LEN <= buflen && n <= |keep| < UINT32
    ensures Counting(cfg, Run(cfg, r0, Kept(DataPackets(|keep|, buflen), keep, n)), buf, keep, n)
    ensures Run(cfg, r0, Kept(DataPackets(|keep|, buflen), keep, n)).starts == r0.starts
    decreases n
  {
    if n == 0 {
    } else {
      hide Receive, Run, Counting, Fresh, DataPacket, Kept;
      DataPhase(cfg, r0, buf, buflen, keep, n - 1);
      DataStep(cfg, r0, buf, DataPackets(|keep|, buflen), buflen, keep, n);
    }
  }

  // ---- The end of a test ----

  lemma ReceiveEnd(cfg: Config, r: Receiver, buf: seq<byte>, nbuf: int)
    requires Ready(cfg, buf) && Ready(cfg, r.buf) && SameRest(cfg, buf, r.buf)
    requires r.state != EndTest && !r.timedOut && r.ends == 0
    ensures var r' := Receive(cfg, r, EndPacket(nbuf));
            && r'.state == EndTest && r'.ends == 1 && r'.expected == CountRead(cfg, buf, nbuf)
            && r'.data == r.data && r'.reports == r.reports && r'.starts == r.starts
  {
    EndIsEnd(cfg, r.buf, nbuf);
    SameCount(cfg, buf, r.buf, nbuf);
    hide Fill, IsStart, IsEnd, CountRead;
  }

  lemma SameCount(cfg: Config, buf: seq<byte>, buf': seq<byte>, nbuf: int)
    requires Ready(cfg, buf) && SameRest(cfg, buf, buf')
    ensures CountRead(cfg, buf, nbuf) == CountRead(cfg, buf', nbuf)
  {
    var p := EndPacket(nbuf);
    var a, b := Fill(buf, cfg.buflen, p), Fill(buf', cfg.buflen, p);
    forall k | 4 <= k < 8 ensures a[k] == b[k] {
      if k >= cfg.buflen {
        assert buf[k] == buf[cfg.buflen..][k - cfg.buflen] == buf'[cfg.buflen..][k - cfg.buflen] == buf'[k];
      }
    }
    assert a[4..8] == b[4..8];
  }

  lemma {:induction false} EndPhase(cfg: Config, r0: Receiver, buf: seq<byte>, nbuf: int, keep: seq<bool>, n: nat)
    requires Ready(cfg, buf) && Ready(cfg, r0.buf) && SameRest(cfg, buf, r0.buf)
    requires r0.state != EndTest && !r0.timedOut && r0.ends == 0 && |keep| == 4 && n <= 4
    ensures var r := Run(cfg, r0, Kept(Ends(nbuf), keep, n));
            && r.data == r0.data && r.reports == r0.reports && r.starts == r0.starts
            && (if NumKept(keep, n) == 0 then r == r0
                else r.state == EndTest && r.ends == 1 && r.expected == CountRead(cfg, buf, nbuf))
    decreases n
  {
    hide EndPacket, CountRead;
    if n == 0 {
    } else {
      EndPhase(cfg, r0, buf, nbuf, keep, n - 1);
      var before := Kept(Ends(nbuf), keep, n - 1);
      if keep[n - 1] {
        assert Ends(nbuf)[n - 1] == EndPacket(nbuf);
        RunLast(cfg, r0, before, EndPacket(nbuf));
        if NumKept(keep, n - 1) == 0 { ReceiveEnd(cfg, r0, buf, nbuf); }
      } else {
        assert before + [] == before;
      }
    }
  }

  /** The packets of a test that arrive, for one choice of the packets that do not. */
  function Delivered(nbuf: int, buflen: nat, starts: seq<bool>, data: seq<bool>, ends: seq<bool>): seq<Packet>
    requires MIN_UDP_LEN <= buflen && |starts| == 2 && |data| == Count(nbuf) && |ends| == 4
  {
    Kept(Sent(nbuf, buflen), starts + data + ends, 6 + Count(nbuf))
  }

  /** The int that the receiver prints as the number of lost packets. */
  function Lost(r: Receiver): int {
    AsInt32(r.expected - r.data)
  }

  /**
    For every choice of dropped packets: the counters of the receiver, and that the test
    ends if and only if one of the end packets arrives.
   */
  lemma {:induction false} Accounting(cfg: Config, buf: seq<byte>, nbuf: int, buflen: nat,
                                      starts: seq<bool>, data: seq<bool>, ends: seq<bool>)
    requires Ready(cfg, buf) && MIN_UDP_LEN <= buflen && nbuf < UINT32 / 2
    requires |starts| == 2 && |data| == Count(nbuf) && |ends| == 4
    ensures var r := Run(cfg, Idle(buf), Delivered(nbuf, buflen, starts, data, ends));
            && r.starts == NumKept(starts, 2)
            && r.data == NumKept(data, |data|)
            && r.reports == (if cfg.seqInfo then VisibleGaps(data, |data|) else 0)
            && (r.state == EndTest <==> NumKept(ends, 4) > 0)
            && (r.state == EndTest ==> r.expected == CountRead(cfg, buf, nbuf))
  {
    hide Run, Kept, Fresh, CountRead, Ends, Delivered;
    var n := Count(nbuf);
    var k1, k2, k3 := Kept(STARTS, starts, 2), Kept(DataPackets(n, buflen), data, n), Kept(Ends(nbuf), ends, 4);
    DeliveredIs(nbuf, buflen, starts, data, ends);
    StartPhase(cfg, buf, starts);
    RunConcat(cfg, Idle(buf), k1, k2);
    RunConcat(cfg, Idle(buf), k1 + k2, k3);
    var r1 := Run(cfg, Idle(buf), k1);
    DataPhase(cfg, r1, buf, buflen, data, n);
    EndPhase(cfg, Run(cfg, r1, k2), buf, nbuf, ends, 4);
  }

  lemma {:induction false} DeliveredIs(nbuf: int, buflen: nat, starts: seq<bool>, data: seq<bool>, ends: seq<bool>)
    requires MIN_UDP_LEN <= buflen && |starts| == 2 && |data| == Count(nbuf) && |ends| == 4
    ensures Delivered(nbuf, buflen, starts, data, ends)
         == Kept(STARTS, starts, 2) + Kept(DataPackets(Count(nbuf), buflen), data, Count(nbuf))
          + Kept(Ends(nbuf), ends, 4)
  {
    hide Kept, Ends, Sent;
    var d := DataPackets(Count(nbuf), buflen);
    SentIs(nbuf, buflen);
    KeptConcat(STARTS, starts, d, data, Count(nbuf));
    KeptConcat(STARTS + d, starts + data, Ends(nbuf), ends, 4);
  }

  lemma SentIs(nbuf: int, buflen: nat)
    requires MIN_UDP_LEN <= buflen
    ensures Sent(nbuf, buflen) == STARTS + DataPackets(Count(nbuf), buflen) + Ends(nbuf)
  {
  }

  /**
    The bytes of the count that do not fit the buffer happen to be in the memory behind
    it.  Nothing is asked of a receive buffer of eight bytes or more.
   */
  predicate CountComplete(cfg: Config, buf: seq<byte>, nbuf: int)
    requires Ready(cfg, buf)
  {
    forall p :: cfg.buflen <= p < END_PKT_LEN ==> buf[p] == ToBe32(nbuf)[p - PATTERN_LEN]
  }

  lemma CountBytesRead(cfg: Config, buf: seq<byte>, nbuf: int) returns (read: seq<byte>)
    requires Ready(cfg, buf)
    ensures |read| == 4 && CountRead(cfg, buf, nbuf) == FromBe32(read)
    ensures forall k :: 0 <= k < 4 ==> read[k] == if k + 4 < cfg.buflen then ToBe32(nbuf)[k] else buf[k + 4]
  {
    var p := EndPacket(nbuf);
    var filled := Fill(buf, cfg.buflen, p);
    read := filled[4..8];
    hide ToBe32, FromBe32;
    forall k | 0 <= k < 4 ensures read[k] == if k + 4 < cfg.buflen then ToBe32(nbuf)[k] else buf[k + 4] {
      assert read[k] == filled[k + 4];
      assert p[k + 4] == ToBe32(nbuf)[k];
    }
  }

  lemma CountReadIs(cfg: Config, buf: seq<byte>, nbuf: int)
    requires Ready(cfg, buf)
    ensures CountRead(cfg, buf, nbuf) == nbuf % UINT32 <==> CountComplete(cfg, buf, nbuf)
    ensures CountRead(cfg, buf, nbuf) / 0x100_0000 == nbuf % UINT32 / 0x100_0000
    ensures CountRead(cfg, buf, nbuf) < UINT32
  {
    Be32RoundTrip(nbuf);
    var sent := ToBe32(nbuf);
    hide ToBe32, CountRead;
    var read := CountBytesRead(cfg, buf, nbuf);
    assert read[0] == sent[0];
    assert FromBe32(read) / 0x100_0000 == read[0] && FromBe32(sent) / 0x100_0000 == sent[0];
    hide FromBe32;
    if FromBe32(read) == FromBe32(sent) {
      FromBe32Injective(read, sent);
      forall p | cfg.buflen <= p < END_PKT_LEN ensures buf[p] == sent[p - PATTERN_LEN] { assert read[p - 4] == buf[p]; }
    }
    if CountComplete(cfg, buf, nbuf) {
      forall k | 0 <= k < 4 ensures read[k] == sent[k] {
        if k + 4 >= cfg.buflen { assert buf[k + 4] == sent[k + 4 - PATTERN_LEN]; }
      }
      assert read == sent;
    }
  }

  /**
    If some end packet arrives, the test ends, and the reported loss is the number of
    data packets that were dropped if and only if the count is not negative and is
    read whole.
   */
  lemma {:induction false} LossIsExact(cfg: Config, buf: seq<byte>, nbuf: int, buflen: nat,
                                       starts: seq<bool>, data: seq<bool>, ends: seq<bool>)
    requires Ready(cfg, buf) && MIN_UDP_LEN <= buflen && -UINT32 / 2 <= nbuf < UINT32 / 2
    requires |starts| == 2 && |data| == Count(nbuf) && |ends| == 4 && NumKept(ends, 4) > 0
    ensures var r := Run(cfg, Idle(buf), Delivered(nbuf, buflen, starts, data, ends));
            && r.state == EndTest
            && (Lost(r) == |data| - NumKept(data, |data|) <==> nbuf >= 0 && CountComplete(cfg, buf, nbuf))
  {
    hide Run, Kept, Delivered, CountRead, CountComplete, NumKept, Ready;
    Accounting(cfg, buf, nbuf, buflen, starts, data, ends);
    CountReadIs(cfg, buf, nbuf);
  }

  // ---- Sequence numbers ----

  /** The delivered packets behind a gap that 256 does not divide. */
  function ShownAt(keep: seq<bool>, n: nat): set<nat>
    requires n <= |keep|
  {
    set i: nat | i < n && IsShown(keep, i)
  }

  lemma {:induction false} VisibleGapsIs(keep: seq<bool>, n: nat)
    requires n <= |keep|
    ensures VisibleGaps(keep, n) == |ShownAt(keep, n)|
    decreases n
  {
    if n == 0 {
      assert ShownAt(keep, 0) == {};
    } else {
      hide IsShown;
      VisibleGapsIs(keep, n - 1);
      var before, last := ShownAt(keep, n - 1), n - 1;
      assert ShownAt(keep, n) == if IsShown(keep, last) then before + {last} else before;
    }
  }

  /** A gap is the longest run of dropped packets that ends there. */
  lemma {:induction false} GapIs(keep: seq<bool>, n: nat)
    requires n <= |keep|
    ensures var start := n - GapBefore(keep, n);
            && (forall i :: start <= i < n ==> !keep[i])
            && (start == 0 || keep[start - 1])
    decreases n
  {
    if n == 0 {
    } else {
      GapIs(keep, n - 1);
    }
  }

  /** The receiver reports as many packets as arrive behind a gap that 256 does not divide. */
  lemma {:induction false} ReportsAre(cfg: Config, buf: seq<byte>, nbuf: int, buflen: nat,
                                     starts: seq<bool>, data: seq<bool>, ends: seq<bool>)
    requires Ready(cfg, buf) && MIN_UDP_LEN <= buflen && nbuf < UINT32 / 2
    requires |starts| == 2 && |data| == Count(nbuf) && |ends| == 4
    ensures Run(cfg, Idle(buf), Delivered(nbuf, buflen, starts, data, ends)).reports
         == if cfg.seqInfo then |ShownAt(data, |data|)| else 0
  {
    hide Run, Delivered, ShownAt, Ready;
    Accounting(cfg, buf, nbuf, buflen, starts, data, ends);
    VisibleGapsIs(data, |data|);
  }

  /** Without loss the receiver reports nothing, however often the one-byte number wraps. */
  lemma {:induction false} NoLossNoReport(cfg: Config, buf: seq<byte>, nbuf: int, buflen: nat,
                                         starts: seq<bool>, data: seq<bool>, ends: seq<bool>)
    requires Ready(cfg, buf) && MIN_UDP_LEN <= buflen && nbuf < UINT32 / 2
    requires |starts| == 2 && |data| == Count(nbuf) && |ends| == 4
    requires forall i :: 0 <= i < |data| ==> data[i]
    ensures Run(cfg, Idle(buf), Delivered(nbuf, buflen, starts, data, ends)).reports == 0
  {
    hide Run, Delivered, Ready;
    ReportsAre(cfg, buf, nbuf, buflen, starts, data, ends);
    forall i: nat | i < |data| ensures GapBefore(data, i) == 0 { GapIs(data, i); }
    assert ShownAt(data, |data|) == {};
  }

  /**
    The receiver reports nothing if and only if 256 divides the length of every run of
    packets dropped before one that arrives.
   */
  lemma {:induction false} SilentGaps(cfg: Config, buf: seq<byte>, nbuf: int, buflen: nat,
                                     starts: seq<bool>, data: seq<bool>, ends: seq<bool>)
    requires Ready(cfg, buf) && MIN_UDP_LEN <= buflen && nbuf < UINT32 / 2 && cfg.seqInfo
    requires |starts| == 2 && |data| == Count(nbuf) && |ends| == 4
    ensures Run(cfg, Idle(buf), Delivered(nbuf, buflen, starts, data, ends)).reports == 0
       <==> forall i :: 0 <= i < |data| && data[i] ==> GapBefore(data, i) % 256 == 0
  {
    hide Run, Delivered, Ready, GapBefore;
    ReportsAre(cfg, buf, nbuf, buflen, starts, data, ends);
    var shown := ShownAt(data, |data|);
    if |shown| == 0 {
      assert shown == {};
      forall i: nat | i < |data| && data[i] ensures GapBefore(data, i) % 256 == 0 { assert i !in shown; }
    } else {
      var i :| i in shown;
    }
  }

  // ---- Two tests, one receiver ----

  /** The receiver is still in its loop and has seen no end packet. */
  predicate Listening(cfg: Config, r: Receiver, buf: seq<byte>) {
    r.state != EndTest && !r.timedOut && r.ends == 0 && SameRest(cfg, buf, r.buf)
  }

  lemma StartPasses(cfg: Config, r: Receiver, buf: seq<byte>)
    requires Ready(cfg, buf) && Ready(cfg, r.buf) && Listening(cfg, r, buf)
    ensures var r' := Receive(cfg, r, START_PATTERN);
            Listening(cfg, r', buf) && r'.data == r.data
  {
    StartIsStart(cfg, r.buf);
    FillKeepsRest(cfg, r.buf, START_PATTERN);
    hide Fill, IsStart, IsEnd;
  }

  lemma DataPasses(cfg: Config, r: Receiver, buf: seq<byte>, i: nat, buflen: nat)
    requires Ready(cfg, buf) && Ready(cfg, r.buf) && MIN_UDP_LEN <= buflen && Listening(cfg, r, buf)
    ensures var r' := Receive(cfg, r, DataPacket(i, buflen));
            Listening(cfg, r', buf) && r'.data == (r.data + 1) % UINT32
  {
    hide Receive, DataPacket;
    ReceiveIsData(cfg, r, i, buflen);
  }

  lemma {:induction false} StartsPass(cfg: Config, r0: Receiver, buf: seq<byte>, keep: seq<bool>, n: nat)
    requires Ready(cfg, buf) && Ready(cfg, r0.buf) && Listening(cfg, r0, buf) && |keep| == 2 && n <= 2
    ensures var r := Run(cfg, r0, Kept(STARTS, keep, n));
            Listening(cfg, r, buf) && r.data == r0.data
    decreases n
  {
    hide Receive, Listening;
    if n == 0 {
    } else {
      StartsPass(cfg, r0, buf, keep, n - 1);
      var before := Kept(STARTS, keep, n - 1);
      if keep[n - 1] {
        RunLast(cfg, r0, before, START_PATTERN);
        hide Run;
        StartPasses(cfg, Run(cfg, r0, before), buf);
      } else {
        assert before + [] == before;
      }
    }
  }

  lemma {:induction false} NextDataPasses(cfg: Config, r0: Receiver, buf: seq<byte>, sent: seq<Packet>, buflen: nat,
                                         keep: seq<bool>, n: nat)
    requires Ready(cfg, buf) && Ready(cfg, r0.buf) && MIN_UDP_LEN <= buflen && n < |keep| == |sent|
    requires sent[n] == DataPacket(n, buflen) && Listening(cfg, Run(cfg, r0, Kept(sent, keep, n)), buf)
    ensures var r, r' := Run(cfg, r0, Kept(sent, keep, n)), Run(cfg, r0, Kept(sent, keep, n + 1));
            Listening(cfg, r', buf) && r'.data == if keep[n] then (r.data + 1) % UINT32 else r.data
  {
    hide Receive, Listening, DataPacket, Run;
    var before := Kept(sent, keep, n);
    if keep[n] {
      RunLast(cfg, r0, before, sent[n]);
      DataPasses(cfg, Run(cfg, r0, before), buf, n, buflen);
    } else {
      assert before + [] == before;
    }
  }

  lemma CountOn(a: nat, keep: seq<bool>, n: nat)
    requires n < |keep|
    ensures var before := (a + NumKept(keep, n)) % UINT32;
            (a + NumKept(keep, n + 1)) % UINT32 == if keep[n] then (before + 1) % UINT32 else before
  {
  }

  lemma NothingKept(cfg: Config, r0: Receiver, sent: seq<Packet>, keep: seq<bool>)
    requires Ready(cfg, r0.buf) && |sent| == |keep| && r0.data < UINT32
    ensures Run(cfg, r0, Kept(sent, keep, 0)) == r0 && (r0.data + NumKept(keep, 0)) % UINT32 == r0.data
  {
  }

  lemma {:induction false} AllDataPasses(cfg: Config, r0: Receiver, buf: seq<byte>, buflen: nat,
                                         keep: seq<bool>, n: nat)
    requires Ready(cfg, buf) && Ready(cfg, r0.buf) && Listening(cfg, r0, buf) && r0.data < UINT32
    requires MIN_UDP_LEN <= buflen && n <= |keep|
    ensures var r := Run(cfg, r0, Kept(DataPackets(|keep|, buflen), keep, n));
            Listening(cfg, r, buf) && r.data == (r0.data + NumKept(keep, n)) % UINT32
    decreases n
  {
    hide Listening, DataPacket, Ready, Run, Kept, NumKept;
    if n == 0 {
      NothingKept(cfg, r0, DataPackets(|keep|, buflen), keep);
    } else {
      AllDataPasses(cfg, r0, buf, buflen, keep, n - 1);
      CountOn(r0.data, keep, n - 1);
      NextDataPasses(cfg, r0, buf, DataPackets(|keep|, buflen), buflen, keep, n - 1);
    }
  }

  lemma {:induction false} EndsPass(cfg: Config, r0: Receiver, buf: seq<byte>, nbuf: int, keep: seq<bool>)
    requires Ready(cfg, buf) && Ready(cfg, r0.buf) && Listening(cfg, r0, buf) && |keep| == 4
    ensures var r := Run(cfg, r0, Kept(Ends(nbuf), keep, 4));
            && r.data == r0.data
            && (if NumKept(keep, 4) == 0 then Listening(cfg, r, buf)
                else r.state == EndTest && r.expected == CountRead(cfg, buf, nbuf))
  {
    hide Run, Kept, CountRead, Ends, NumKept;
    EndPhase(cfg, r0, buf, nbuf, keep, 4);
  }

  lemma StaysReady(cfg: Config, r: Receiver, net: seq<Packet>)
    requires Ready(cfg, r.buf)
    ensures Ready(cfg, Run(cfg, r, net).buf)
  {
  }

  lemma {:induction false} DataReached(cfg: Config, r0: Receiver, buf: seq<byte>, buflen: nat,
                                       starts: seq<bool>, data: seq<bool>)
    requires Ready(cfg, buf) && Ready(cfg, r0.buf) && Listening(cfg, r0, buf) && r0.data < UINT32
    requires MIN_UDP_LEN <= buflen && |starts| == 2
    ensures var r := Run(cfg, r0, Kept(STARTS, starts, 2) + Kept(DataPackets(|data|, buflen), data, |data|));
            Listening(cfg, r, buf) && r.data == (r0.data + NumKept(data, |data|)) % UINT32
  {
    hide Run, Kept, DataPackets, Listening, NumKept, Ready;
    var k1 := Kept(STARTS, starts, 2);
    StaysReady(cfg, r0, k1);
    RunConcat(cfg, r0, k1, Kept(DataPackets(|data|, buflen), data, |data|));
    StartsPass(cfg, r0, buf, starts, 2);
    AllDataPasses(cfg, Run(cfg, r0, k1), buf, buflen, data, |data|);
  }

  /** What one test does to a receiver that may have been through others. */
  lemma {:induction false} TestPasses(cfg: Config, r0: Receiver, buf: seq<byte>, nbuf: int, buflen: nat,
                                     starts: seq<bool>, data: seq<bool>, ends: seq<bool>)
    requires Ready(cfg, buf) && Ready(cfg, r0.buf) && Listening(cfg, r0, buf) && r0.data < UINT32
    requires MIN_UDP_LEN <= buflen && |starts| == 2 && |data| == Count(nbuf) && |ends| == 4
    ensures var r := Run(cfg, r0, Delivered(nbuf, buflen, starts, data, ends));
            && r.data == (r0.data + NumKept(data, |data|)) % UINT32
            && (if NumKept(ends, 4) == 0 then Listening(cfg, r, buf)
                else r.state == EndTest && r.expected == CountRead(cfg, buf, nbuf))
  {
    hide Run, Kept, CountRead, Ends, Delivered, DataPackets, Listening, NumKept, Ready;
    var k12 := Kept(STARTS, starts, 2) + Kept(DataPackets(|data|, buflen), data, |data|);
    DeliveredIs(nbuf, buflen, starts, data, ends);
    RunConcat(cfg, r0, k12, Kept(Ends(nbuf), ends, 4));
    DataReached(cfg, r0, buf, buflen, starts, data);
    StaysReady(cfg, r0, k12);
    EndsPass(cfg, Run(cfg, r0, k12), buf, nbuf, ends);
  }

  /** One choice of the packets that arrive of a test. */
  datatype Test = Test(nbuf: int, buflen: nat, starts: seq<bool>, data: seq<bool>, ends: seq<bool>)

  predicate Proper(t: Test) {
    && MIN_UDP_LEN <= t.buflen && t.nbuf < UINT32 / 2
    && |t.starts| == 2 && |t.data| == Count(t.nbuf) && |t.ends| == 4
  }

  function Arriving(t: Test): seq<Packet>
    requires Proper(t)
  {
    Delivered(t.nbuf, t.buflen, t.starts, t.data, t.ends)
  }

  /**
    The end packets of a first test are all lost and a second one follows: the receiver
    counts on, and the loss it reports is the second test's if and only if no data packet
    of the first arrived.
   */
  lemma {:induction false} SecondTestIsExact(cfg: Config, buf: seq<byte>, first: Test, second: Test)
    requires Ready(cfg, buf) && Proper(first) && Proper(second)
    requires NumKept(first.ends, 4) == 0 && NumKept(second.ends, 4) > 0
    requires second.nbuf >= 0 && CountComplete(cfg, buf, second.nbuf)
    ensures var r := Run(cfg, Idle(buf), Arriving(first) + Arriving(second));
            && r.state == EndTest
            && (Lost(r) == |second.data| - NumKept(second.data, |second.data|)
                <==> NumKept(first.data, |first.data|) == 0)
  {
    hide Run, Delivered, CountRead, CountComplete, Ready, Listening, AsInt32, NumKept;
    var idle := Idle(buf);
    IdleListens(cfg, buf);
    RunConcat(cfg, idle, Arriving(first), Arriving(second));
    TestPasses(cfg, idle, buf, first.nbuf, first.buflen, first.starts, first.data, first.ends);
    StaysReady(cfg, idle, Arriving(first));
    var r1 := Run(cfg, idle, Arriving(first));
    var n1, n2 := NumKept(first.data, |first.data|), NumKept(second.data, |second.data|);
    assert r1.data == n1;
    TestPasses(cfg, r1, buf, second.nbuf, second.buflen, second.starts, second.data, second.ends);
    CountReadIs(cfg, buf, second.nbuf);
    assert CountRead(cfg, buf, second.nbuf) == second.nbuf;
    LossArithmetic(second.nbuf, n1, n2);
  }

  lemma IdleListens(cfg: Config, buf: seq<byte>)
    requires Ready(cfg, buf)
    ensures Listening(cfg, Idle(buf), buf)
  {
  }

  lemma LossArithmetic(sent: nat, n1: nat, n2: nat)
    requires n2 <= sent < UINT32 / 2 && n1 < UINT32 / 2
    ensures n1 + n2 < UINT32
    ensures AsInt32(sent - (n1 + n2)) == sent - n2 <==> n1 == 0
  {
  }
}
