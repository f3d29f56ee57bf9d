/** UDP over ip_send (net/udp.c, ip_rcv of net/ip.c): building, checking and taking apart. */
module Udp {
  import opened Checksum
  import opened Ip
  import opened Fragmentation
  import opened Words

  const IP_P_UDP: Byte := 0x11
  const UDP_HDR := 8
  const FAKE_HDR := 12

  /** struct udpfakehdr in memory order: src_ip, dest_ip, ttl, protocol, len. */
  function Fake(src: seq<Byte>, dst: seq<Byte>, len: Word16): (f: seq<Byte>)
    requires |src| == 4 && |dst| == 4
    ensures |f| == FAKE_HDR
  {
    src + dst + [0, IP_P_UDP, Hi(len), Lo(len)]
  }

  function UdpHeader(sport: Word16, dport: Word16, len: Word16): (h: seq<Byte>)
    ensures |h| == UDP_HDR
  {
    [Hi(sport), Lo(sport), Hi(dport), Lo(dport), Hi(len), Lo(len), 0, 0]
  }

  /** Pseudo-header, header and data, checksum field zero. */
  function Unchecked(src: Word32, dst: Word32, sport: Word16, dport: Word16, data: seq<Byte>): (b: seq<Byte>)
    requires |data| + UDP_HDR <= 0xFFFF
    ensures |b| == FAKE_HDR + UDP_HDR + |data|
  {
    Fake(Be32(src), Be32(dst), UDP_HDR + |data|) + UdpHeader(sport, dport, UDP_HDR + |data|) + data
  }

  /** The segment handed to ip_send. */
  function Segment(src: Word32, dst: Word32, sport: Word16, dport: Word16, data: seq<Byte>): (s: seq<Byte>)
    requires |data| + UDP_HDR <= 0xFFFF
    ensures |s| == UDP_HDR + |data|
  {
    var b := Unchecked(src, dst, sport, dport, data);
    Stored(b, 18, Of(b))[FAKE_HDR..]
  }

  /** Unsigned 32-bit arithmetic, for sums and differences of two words. */
  function Wrap32(x: int): Word32
    requires -0x1_0000_0000 <= x < 0x2_0000_0000
  {
    if x < 0 then x + 0x1_0000_0000 else if x >= 0x1_0000_0000 then x - 0x1_0000_0000 else x
  }

  /** kzmalloc panics above a page, a copy runs past its source, or past its buffer. */
  datatype Fault = NoBuffer | Overread | Overran

  datatype SendResult = Failed(why: Fault) | Passed(out: Outcome)

  /** kzmalloc serves at most one page, and is asked for 20 bytes more than the data on 32 bits;
      ports are truncated to 16 bits. */
  function UdpSendSpec(devIp: Word32, known: bool, dst: Word32, dport: Word32, sport: Word32, data: seq<Byte>): SendResult
    requires |data| < 0x1_0000_0000
  {
    var room := Wrap32(|data| + UDP_HDR + FAKE_HDR);
    if room > 4096 then Failed(NoBuffer)
    else if room < |data| then Failed(Overran)
    else Passed(Send(Route(1, IP_P_UDP, devIp, dst), known, Segment(devIp, dst, sport % 0x1_0000, dport % 0x1_0000, data)))
  }

  method UdpSend(devIp: Word32, known: bool, dst: Word32, dport: Word32, sport: Word32, data: seq<Byte>)
    returns (r: SendResult)
    requires |data| < 0x1_0000_0000
    ensures r == UdpSendSpec(devIp, known, dst, dport, sport, data)
  {
    var size := Wrap32(|data| + UDP_HDR + FAKE_HDR);
    if size > 4096 { return Failed(NoBuffer); }
    if size < |data| { return Failed(Overran); }
    var seg := BuildSegment(devIp, dst, dport % 0x1_0000, sport % 0x1_0000, data);
    var out := IpSend(Route(1, IP_P_UDP, devIp, dst), known, seg);
    r := Passed(out);
  }

  /** The buffer behind the pseudo-header, checksum stored. */
  method BuildSegment(devIp: Word32, dst: Word32, dport: Word16, sport: Word16, data: seq<Byte>) returns (seg: seq<Byte>)
    requires |data| + UDP_HDR + FAKE_HDR <= 4096
    ensures seg == Segment(devIp, dst, sport, dport, data)
  {
    var size := |data| + UDP_HDR + FAKE_HDR;
    var fake := new Byte[size](_ => 0);
    CopyIn(fake, 0, Fake(Be32(devIp), Be32(dst), size - FAKE_HDR));
    CopyIn(fake, FAKE_HDR, UdpHeader(sport, dport, size - FAKE_HDR));
    ghost var fields := Fake(Be32(devIp), Be32(dst), size - FAKE_HDR) + UdpHeader(sport, dport, size - FAKE_HDR);
    assert fake[..FAKE_HDR + UDP_HDR] == fields;
    CopyIn(fake, FAKE_HDR + UDP_HDR, data);
    ghost var b := Unchecked(devIp, dst, sport, dport, data);
    assert fake[..] == b;
    assert fake[..size] == fake[..];
    var check := IpHdrChecksum(fake, size);
    PutBe16(fake, 18, check);
    assert fake[..] == Stored(b, 18, check);
    seg := fake[FAKE_HDR..];
  }

  // ----- receiving

  /** What udp_rcv does: it answers saddr with the ports exchanged and the same data. */
  datatype Received = Dropped | Echo(saddr: Word32, dport: Word16, sport: Word16, data: seq<Byte>) | Broke(how: Fault)

  function Get32(b: seq<Byte>): Word32
    requires |b| == 4
  {
    0x100_0000 * (b[0] as int) + 0x1_0000 * (b[1] as int) + 256 * (b[2] as int) + b[3] as int
  }

  /** The UDP part of a packet that starts at the IP header. */
  function UdpPart(packet: seq<Byte>, size: nat): (udp: seq<Byte>)
    requires packet != [] && packet[0] % 16 * 4 + size <= |packet|
    ensures |udp| == size
  {
    packet[packet[0] % 16 * 4..packet[0] % 16 * 4 + size]
  }

  /** The checksum over pseudo-header and segment comes out 0. */
  predicate SegmentChecks(packet: seq<Byte>, size: nat)
    requires |packet| >= HDR && size <= 0xFFFF && packet[0] % 16 * 4 + size <= |packet|
  {
    Of(Fake(packet[12..16], packet[16..20], size) + UdpPart(packet, size)) == 0
  }

  /** `size` is the UDP length taken from the IP header. The buffer for it is 12 bytes longer,
      on 32 bits; a length below the UDP header wraps the length of the data to answer with. */
  function UdpRcvSpec(packet: seq<Byte>, size: Word32): Received
    requires |packet| >= HDR
  {
    var room := Wrap32(size + FAKE_HDR);
    if room > 4096 then Broke(NoBuffer)
    else if room < size then Broke(Overran)
    else if packet[0] % 16 * 4 + size > |packet| then Broke(Overread)
    else if !SegmentChecks(packet, size) then Dropped
    else if size < UDP_HDR then Broke(Overran)
    else
      var udp := UdpPart(packet, size);
      Echo(Get32(packet[12..16]), Be(udp[0], udp[1]), Be(udp[2], udp[3]), udp[UDP_HDR..])
  }

  /** The buffer udp_rcv checks: pseudo-header from the IP header, then the segment. */
  method FakePacket(packet: array<Byte>, bodyOffset: nat, size: nat) returns (fake: array<Byte>)
    requires packet.Length >= HDR && size <= 0xFFFF && bodyOffset + size <= packet.Length
    ensures fresh(fake) && fake[..] == Fake(packet[12..16], packet[16..20], size) + packet[bodyOffset..bodyOffset + size]
  {
    fake := new Byte[size + FAKE_HDR](_ => 0);
    ghost var udp := packet[bodyOffset..bodyOffset + size];
    CopyIn(fake, FAKE_HDR, packet[bodyOffset..bodyOffset + size]);
    assert fake[FAKE_HDR..] == udp by {
      assert fake[..][FAKE_HDR..] == udp;
    }
    CopyIn(fake, 0, Fake(packet[12..16], packet[16..20], size));
  }

  method UdpRcv(packet: array<Byte>, size: Word32) returns (r: Received)
    requires packet.Length >= HDR
    ensures r == UdpRcvSpec(packet[..], size)
  {
    var bodyOffset := packet[0] % 16 * 4;
    var room := Wrap32(size + FAKE_HDR);
    if room > 4096 { return Broke(NoBuffer); }
    if room < size { return Broke(Overran); }
    if bodyOffset + size > packet.Length { return Broke(Overread); }
    ghost var p := packet[..];
    assert packet[12..16] == p[12..16] && packet[16..20] == p[16..20];
    assert packet[bodyOffset..bodyOffset + size] == UdpPart(p, size);
    var fake := FakePacket(packet, bodyOffset, size);
    assert fake[..size + FAKE_HDR] == fake[..];
    var check := IpHdrChecksum(fake, size + FAKE_HDR);
    assert packet[..] == p;
    if check != 0 { return Dropped; }
    var dataBodySize: Word32 := Wrap32(size - UDP_HDR);
    if dataBodySize > size { return Broke(Overran); }
    var udp := packet[bodyOffset..bodyOffset + size];
    assert udp == UdpPart(p, size) && packet[12..16] == p[12..16];
    r := Echo(Get32(packet[12..16]), Be(udp[0], udp[1]), Be(udp[2], udp[3]), udp[UDP_HDR..]);
  }

  /** The length ip_rcv passes on: total length less header length, on 32 bits. */
  function UdpSize(packet: seq<Byte>): Word32
    requires |packet| >= HDR
  {
    Wrap32(Be(packet[2], packet[3]) - packet[0] % 16 * 4)
  }

  /** ip_rcv for UDP: the header checksum must verify. */
  function IpRcvSpec(packet: seq<Byte>): Received
    requires |packet| >= HDR
  {
    if Of(packet[..HDR]) != 0 || packet[9] != IP_P_UDP then Dropped
    else UdpRcvSpec(packet, UdpSize(packet))
  }

  method IpRcv(packet: array<Byte>) returns (r: Received)
    requires packet.Length >= HDR
    ensures r == IpRcvSpec(packet[..])
  {
    var check := IpHdrChecksum(packet, HDR);
    assert packet[..][..HDR] == packet[..HDR];
    if check != 0 || packet[9] != IP_P_UDP { return Dropped; }
    r := UdpRcv(packet, Wrap32(Be(packet[2], packet[3]) - packet[0] % 16 * 4));
  }

  /** Which lengths break udp_rcv: from 4085 up the allocator panics, and the twelve highest
      wrap to a buffer that the copy overruns. */
  lemma LongLengths(packet: seq<Byte>, size: Word32)
    requires |packet| >= HDR
    ensures UdpRcvSpec(packet, size) == Broke(NoBuffer) <==> 4084 < size < 0x1_0000_0000 - FAKE_HDR
    ensures size >= 0x1_0000_0000 - FAKE_HDR ==> UdpRcvSpec(packet, size) == Broke(Overran)
  {
  }

  /** A datagram that lies in its packet and whose checksum verifies is echoed exactly if its
      length covers the UDP header and at most 4084 bytes; below 8 bytes the answer copies
      4 GB. */
  lemma EchoedWhen(packet: seq<Byte>, size: Word32)
    requires |packet| >= HDR && packet[0] % 16 * 4 + size <= |packet| && size <= 0xFFFF && SegmentChecks(packet, size)
    ensures UdpRcvSpec(packet, size).Echo? <==> UDP_HDR <= size <= 4084
    ensures size < UDP_HDR ==> UdpRcvSpec(packet, size) == Broke(Overran)
  {
  }

  // ----- round trip

  lemma Be32RoundTrip(v: Word32)
    ensures Get32(Be32(v)) == v
  {
  }

  lemma Be16RoundTrip(v: Word16)
    ensures Be(Hi(v), Lo(v)) == v
  {
  }

  /** The sum of a message is its first word plus the sum of the rest. */
  lemma SumSkips(a: Byte, b: Byte, rest: seq<Byte>)
    ensures Sum([a, b] + rest) == Be(a, b) + Sum(rest)
  {
    assert ([a, b] + rest)[2..] == rest;
  }

  lemma SumOfFour(x: seq<Byte>, rest: seq<Byte>)
    requires |x| == 4
    ensures Sum(x + rest) == Be(x[0], x[1]) + Be(x[2], x[3]) + Sum(rest)
  {
    assert x + rest == [x[0], x[1]] + ([x[2], x[3]] + rest);
    SumSkips(x[2], x[3], rest);
    SumSkips(x[0], x[1], [x[2], x[3]] + rest);
  }

  /** Only the destination words differ between the two pseudo-headers. */
  lemma SumOfFake(src: seq<Byte>, dst: seq<Byte>, len: Word16, rest: seq<Byte>)
    requires |src| == 4 && |dst| == 4
    ensures Sum(Fake(src, dst, len) + rest)
         == Be(src[0], src[1]) + Be(src[2], src[3]) + Be(dst[0], dst[1]) + Be(dst[2], dst[3])
            + IP_P_UDP + len + Sum(rest)
  {
    var tail := [0, IP_P_UDP, Hi(len), Lo(len)];
    Be16RoundTrip(len);
    SumOfFour(tail, rest);
    SumOfFour(dst, tail + rest);
    SumOfFour(src, dst + (tail + rest));
    assert Fake(src, dst, len) + rest == src + (dst + (tail + rest));
  }

  /** Replacing a zero destination by 255.255.255.255 adds two words of ones to the sum. */
  lemma BroadcastVerifies(src: seq<Byte>, len: Word16, rest: seq<Byte>)
    requires |src| == 4 && |rest| <= 0xFFFF && Of(Fake(src, Be32(0), len) + rest) == 0
    ensures Of(Fake(src, Be32(BROADCAST), len) + rest) == 0
  {
    BroadcastSum(src, len, rest);
    OnesAreInvisible(Fake(src, Be32(0), len) + rest, Fake(src, Be32(BROADCAST), len) + rest, 2);
  }

  lemma BroadcastBytes()
    ensures Be32(0) == [0, 0, 0, 0] && Be32(BROADCAST) == [255, 255, 255, 255]
  {
  }

  lemma SumDiffers(src: seq<Byte>, d: seq<Byte>, e: seq<Byte>, len: Word16, rest: seq<Byte>)
    requires |src| == |d| == |e| == 4
    ensures Sum(Fake(src, e, len) + rest) - Sum(Fake(src, d, len) + rest)
         == Be(e[0], e[1]) + Be(e[2], e[3]) - (Be(d[0], d[1]) + Be(d[2], d[3]))
  {
    SumOfFake(src, d, len, rest);
    SumOfFake(src, e, len, rest);
  }

  lemma BroadcastSum(src: seq<Byte>, len: Word16, rest: seq<Byte>)
    requires |src| == 4
    ensures Sum(Fake(src, Be32(BROADCAST), len) + rest) == Sum(Fake(src, Be32(0), len) + rest) + 2 * 0xFFFF
  {
    BroadcastBytes();
    SumDiffers(src, Be32(0), Be32(BROADCAST), len, rest);
  }

  lemma SegmentBehindFake(src: Word32, dst: Word32, sport: Word16, dport: Word16, data: seq<Byte>)
    requires |data| + UDP_HDR <= 0xFFFF
    ensures var b, seg := Unchecked(src, dst, sport, dport, data), Segment(src, dst, sport, dport, data);
      b[18] == 0 && b[19] == 0 && Stored(b, 18, Of(b)) == Fake(Be32(src), Be32(dst), |seg|) + seg
  {
    var b := Unchecked(src, dst, sport, dport, data);
    assert b[..FAKE_HDR] == Fake(Be32(src), Be32(dst), UDP_HDR + |data|);
    assert Stored(b, 18, Of(b)) == Stored(b, 18, Of(b))[..FAKE_HDR] + Stored(b, 18, Of(b))[FAKE_HDR..];
    assert Stored(b, 18, Of(b))[..FAKE_HDR] == b[..FAKE_HDR];
  }

  /** The checksum stored by udp_send verifies, over its own pseudo-header and over the one
      with the broadcast address ip_send puts in place of 0. */
  lemma SegmentVerifies(src: Word32, dst: Word32, sport: Word16, dport: Word16, data: seq<Byte>)
    requires |data| + UDP_HDR <= 0xFFFF
    ensures var seg := Segment(src, dst, sport, dport, data);
      Of(Fake(Be32(src), Be32(if dst == 0 then BROADCAST else dst), |seg|) + seg) == 0
  {
    SegmentBehindFake(src, dst, sport, dport, data);
    StoredChecksumVerifies(Unchecked(src, dst, sport, dport, data), 18);
    if dst == 0 {
      var seg := Segment(src, dst, sport, dport, data);
      BroadcastVerifies(Be32(src), |seg|, seg);
    }
  }

  lemma WholeFields(route: Route, seg: seq<Byte>)
    requires UDP_HDR <= |seg| <= MTU && route.protocol == IP_P_UDP
    ensures var p := Whole(route, seg);
      && |p| == HDR + |seg| && p[0] == 0x45 && Be(p[2], p[3]) == |p| && p[9] == IP_P_UDP
      && p[12..16] == Be32(route.saddr) && p[16..20] == Be32(route.daddr)
      && p[HDR..HDR + |seg|] == seg && Of(p[..HDR]) == 0
  {
    HeaderFields(route, HDR + |seg|, DONT_FRAGMENT, seg);
    HeaderVerifies(route, HDR + |seg|, DONT_FRAGMENT);
    HeaderBytes(route, HDR + |seg|, DONT_FRAGMENT, seg);
    Be16RoundTrip(HDR + |seg|);
  }

  /** What udp_rcv makes of a whole packet around a segment that verifies. */
  lemma WholeIsReceived(route: Route, seg: seq<Byte>)
    requires UDP_HDR <= |seg| <= MTU && route.protocol == IP_P_UDP
    requires Of(Fake(Be32(route.saddr), Be32(route.daddr), |seg|) + seg) == 0
    ensures var p := Whole(route, seg);
      && |p| == HDR + |seg| && p[0] % 16 * 4 == HDR && Be(p[2], p[3]) == |p|
      && IpRcvSpec(p) == Echo(route.saddr, Be(seg[0], seg[1]), Be(seg[2], seg[3]), seg[UDP_HDR..])
  {
    WholeFields(route, seg);
    var p := Whole(route, seg);
    ReceivedWhole(p, Be32(route.saddr), Be32(route.daddr), seg);
    Be32RoundTrip(route.saddr);
  }

  lemma ReceivedWhole(p: seq<Byte>, src: seq<Byte>, dst: seq<Byte>, seg: seq<Byte>)
    requires UDP_HDR <= |seg| <= MTU && |p| == HDR + |seg| && |src| == |dst| == 4
    requires p[0] == 0x45 && Be(p[2], p[3]) == |p| && p[9] == IP_P_UDP && Of(p[..HDR]) == 0
    requires p[12..16] == src && p[16..20] == dst && p[HDR..HDR + |seg|] == seg
    requires Of(Fake(src, dst, |seg|) + seg) == 0
    ensures p[0] % 16 * 4 == HDR
    ensures IpRcvSpec(p) == Echo(Get32(src), Be(seg[0], seg[1]), Be(seg[2], seg[3]), seg[UDP_HDR..])
  {
  }

  /** Every datagram udp_send fits into one packet is accepted by ip_rcv and udp_rcv, which
      recover the sender, both ports and the exact bytes; dst == 0 (broadcast) included. */
  lemma RoundTrip(devIp: Word32, known: bool, dst: Word32, dport: Word32, sport: Word32, data: seq<Byte>)
    requires |data| + UDP_HDR <= MTU && (dst == 0 || known)
    ensures var r := UdpSendSpec(devIp, known, dst, dport, sport, data);
      && r.Passed? && r.out.Sent? && |r.out.packets| == 1
      && var p := r.out.packets[0];
         && |p| == HDR + UDP_HDR + |data| && p[0] % 16 * 4 == HDR && Be(p[2], p[3]) == |p|
         && IpRcvSpec(p) == Echo(devIp, sport % 0x1_0000, dport % 0x1_0000, data)
  {
    var sp, dp := sport % 0x1_0000, dport % 0x1_0000;
    SegmentVerifies(devIp, dst, sp, dp, data);
    SegmentFields(devIp, dst, sp, dp, data);
    WholeIsReceived(Routed(Route(1, IP_P_UDP, devIp, dst)), Segment(devIp, dst, sp, dp, data));
  }

  lemma HeaderBytes(r: Route, totLen: Word16, frag: Word16, payload: seq<Byte>)
    ensures var p := Header(r, totLen, frag) + payload;
      && p[0] == 0x45 && p[9] == r.protocol && p[12..16] == Be32(r.saddr) && p[16..20] == Be32(r.daddr)
  {
  }

  lemma SegmentFields(src: Word32, dst: Word32, sport: Word16, dport: Word16, data: seq<Byte>)
    requires |data| + UDP_HDR <= 0xFFFF
    ensures var seg := Segment(src, dst, sport, dport, data);
      Be(seg[0], seg[1]) == sport && Be(seg[2], seg[3]) == dport && seg[UDP_HDR..] == data
  {
    Be16RoundTrip(sport);
    Be16RoundTrip(dport);
  }

  lemma FakeAloneChecks(src: Word32, dst: Word32)
    requires src == 0xFFEE_0000 && dst == 0
    ensures Of(Fake(Be32(src), Be32(dst), 0)) == 0
  {
    assert Be32(src) == [0xFF, 0xEE, 0, 0] && Be32(dst) == [0, 0, 0, 0];
    var f := Fake(Be32(src), Be32(dst), 0);
    SumOfFake(Be32(src), Be32(dst), 0, []);
    assert f + [] == f;
    ZeroChecksum(f);
  }

  lemma BareHeaderReceived(p: seq<Byte>, src: seq<Byte>, dst: seq<Byte>)
    requires |p| == HDR && p[0] == 0x45 && Be(p[2], p[3]) == HDR && p[9] == IP_P_UDP && Of(p) == 0
    requires |src| == |dst| == 4 && p[12..16] == src && p[16..20] == dst && Of(Fake(src, dst, 0)) == 0
    ensures IpRcvSpec(p) == Broke(Overran)
  {
    assert p[..HDR] == p && p[0] % 16 * 4 == HDR;
    assert SegmentChecks(p, 0) by {
      assert UdpPart(p, 0) == [];
      assert Fake(src, dst, 0) + [] == Fake(src, dst, 0);
    }
    EchoedWhen(p, 0);
  }

  lemma BareHeaderIs(r: Route)
    requires r.protocol == IP_P_UDP
    ensures
      var p := Header(r, HDR, DONT_FRAGMENT);
      && |p| == HDR && p[0] == 0x45 && Be(p[2], p[3]) == HDR && p[9] == IP_P_UDP && Of(p) == 0
      && p[12..16] == Be32(r.saddr) && p[16..20] == Be32(r.daddr)
  {
    var p := Header(r, HDR, DONT_FRAGMENT);
    HeaderVerifies(r, HDR, DONT_FRAGMENT);
    HeaderBytes(r, HDR, DONT_FRAGMENT, []);
    HeaderFields(r, HDR, DONT_FRAGMENT, []);
    assert p + [] == p;
    Be16RoundTrip(HDR);
  }

  lemma BareHeaderOverruns(r: Route)
    requires r.protocol == IP_P_UDP && Of(Fake(Be32(r.saddr), Be32(r.daddr), 0)) == 0
    ensures IpRcvSpec(Header(r, HDR, DONT_FRAGMENT)) == Broke(Overran)
  {
    BareHeaderIs(r);
    BareHeaderReceived(Header(r, HDR, DONT_FRAGMENT), Be32(r.saddr), Be32(r.daddr));
  }

  /** A packet of a bare IP header, from 255.238.0.0 to 0.0.0.0: it verifies, its UDP length
      is 0, and udp_rcv runs away. */
  lemma EmptyDatagramOverruns()
    ensures IpRcvSpec(Header(Route(1, IP_P_UDP, 0xFFEE_0000, 0), HDR, DONT_FRAGMENT)) == Broke(Overran)
  {
    FakeAloneChecks(0xFFEE_0000, 0);
    BareHeaderOverruns(Route(1, IP_P_UDP, 0xFFEE_0000, 0));
  }

  /** A checksum field of 0 means "none" to RFC 768, which has it sent as 0xFFFF instead; the
      code sends 0 exactly when the words sum to a nonzero multiple of 0xFFFF. */
  lemma ZeroIsTransmitted(src: Word32, dst: Word32, sport: Word16, dport: Word16, data: seq<Byte>)
    requires |data| + UDP_HDR <= 0xFFFF
    ensures var b := Unchecked(src, dst, sport, dport, data);
      (Segment(src, dst, sport, dport, data)[6..8] == [0, 0]) <==> Sum(b) % 0xFFFF == 0
  {
    var b := Unchecked(src, dst, sport, dport, data);
    SumPositive(src, dst, sport, dport, data);
    ZeroChecksum(b);
    CheckField(src, dst, sport, dport, data);
    ZeroBytes(Of(b));
  }

  lemma SumOfHeader(sport: Word16, dport: Word16, len: Word16, rest: seq<Byte>)
    ensures Sum(UdpHeader(sport, dport, len) + rest) == sport + dport + len + Sum(rest)
  {
    Be16RoundTrip(sport);
    Be16RoundTrip(dport);
    Be16RoundTrip(len);
    var ports, tail := [Hi(sport), Lo(sport), Hi(dport), Lo(dport)], [Hi(len), Lo(len), 0, 0];
    SumOfFour(tail, rest);
    SumOfFour(ports, tail + rest);
    assert UdpHeader(sport, dport, len) + rest == ports + (tail + rest);
  }

  lemma SumOfTwo(a: Byte, b: Byte)
    ensures Sum([a, b]) == Be(a, b)
  {
    SumSkips(a, b, []);
    assert [a, b] + [] == [a, b];
  }

  lemma SumForFFDA(none: Word32, port: Word16, data: seq<Byte>)
    requires none == 0 && port == 0 && data == [0xFF, 0xDA]
    ensures Sum(Unchecked(none, none, port, port, data)) == 0xFFFF
  {
    SumOfTwo(0xFF, 0xDA);
    BroadcastBytes();
    SumOfUnchecked(none, none, port, port, data, Be32(none), Be32(none));
  }

  lemma ZeroSentWhen(src: Word32, dst: Word32, sport: Word16, dport: Word16, data: seq<Byte>, n: nat)
    requires |data| + UDP_HDR <= 0xFFFF && n % 0xFFFF == 0
    requires Sum(Unchecked(src, dst, sport, dport, data)) == n
    ensures Segment(src, dst, sport, dport, data)[6..8] == [0, 0]
  {
    ZeroIsTransmitted(src, dst, sport, dport, data);
  }

  /** Between zero addresses and ports the two bytes FF DA do it. */
  lemma ZeroSentForFFDA(none: Word32, port: Word16, data: seq<Byte>)
    requires none == 0 && port == 0 && data == [0xFF, 0xDA]
    ensures Segment(none, none, port, port, data)[6..8] == [0, 0]
  {
    SumForFFDA(none, port, data);
    ZeroSentWhen(none, none, port, port, data, 0xFFFF);
  }

  lemma SumOfUnchecked(src: Word32, dst: Word32, sport: Word16, dport: Word16, data: seq<Byte>, s: seq<Byte>, d: seq<Byte>)
    requires |data| + UDP_HDR <= 0xFFFF && s == Be32(src) && d == Be32(dst) && |s| == |d| == 4
    ensures Sum(Unchecked(src, dst, sport, dport, data))
         == Be(s[0], s[1]) + Be(s[2], s[3]) + Be(d[0], d[1]) + Be(d[2], d[3])
            + IP_P_UDP + 2 * (UDP_HDR + |data|) + sport + dport + Sum(data)
  {
    var len := UDP_HDR + |data|;
    UncheckedSplits(src, dst, sport, dport, data);
    SumOfFake(s, d, len, UdpHeader(sport, dport, len) + data);
    SumOfHeader(sport, dport, len, data);
  }

  lemma UncheckedSplits(src: Word32, dst: Word32, sport: Word16, dport: Word16, data: seq<Byte>)
    requires |data| + UDP_HDR <= 0xFFFF
    ensures Unchecked(src, dst, sport, dport, data)
         == Fake(Be32(src), Be32(dst), UDP_HDR + |data|) + (UdpHeader(sport, dport, UDP_HDR + |data|) + data)
  {
  }

  lemma ZeroBytes(v: Word16)
    ensures [Hi(v), Lo(v)] == [0, 0] <==> v == 0
  {
    assert [Hi(v), Lo(v)][0] == Hi(v) && [Hi(v), Lo(v)][1] == Lo(v);
  }

  lemma SumPositive(src: Word32, dst: Word32, sport: Word16, dport: Word16, data: seq<Byte>)
    requires |data| + UDP_HDR <= 0xFFFF
    ensures Sum(Unchecked(src, dst, sport, dport, data)) > 0
  {
    SumOfUnchecked(src, dst, sport, dport, data, Be32(src), Be32(dst));
  }

  lemma CheckField(src: Word32, dst: Word32, sport: Word16, dport: Word16, data: seq<Byte>)
    requires |data| + UDP_HDR <= 0xFFFF
    ensures var c := Of(Unchecked(src, dst, sport, dport, data));
      Segment(src, dst, sport, dport, data)[6..8] == [Hi(c), Lo(c)]
  {
  }
}
