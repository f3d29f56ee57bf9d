/** Which packets ip_rcv and udp_rcv answer: those whose words add up. */
module UdpDrops {
  import opened Checksum
  import opened Ip
  import opened Udp
  import opened Words

  /** Where the IP header says the segment starts, and the packet ends. */
  function Offset(packet: seq<Byte>): nat
    requires packet != []
  {
    packet[0] % 16 * 4
  }

  function TotalLength(packet: seq<Byte>): nat
    requires |packet| >= HDR
  {
    Be(packet[2], packet[3])
  }

  /** What the checksum covers: pseudo-header and segment. */
  function Covered(packet: seq<Byte>, size: nat): (b: seq<Byte>)
    requires |packet| >= HDR && size <= 0xFFFF && Offset(packet) + size <= |packet|
    ensures |b| == FAKE_HDR + size
  {
    Fake(packet[12..16], packet[16..20], size) + UdpPart(packet, size)
  }

  lemma AddsUpIsChecked(packet: seq<Byte>, size: nat)
    requires |packet| >= HDR && size <= 0xFFFF && Offset(packet) + size <= |packet|
    ensures SegmentChecks(packet, size) <==> AddsUp(Covered(packet, size))
  {
    SumOfFake(packet[12..16], packet[16..20], size, UdpPart(packet, size));
    ZeroChecksum(Covered(packet, size));
    AddsUpMod(Covered(packet, size));
  }

  /** udp_rcv answers exactly the datagrams that lie in their packet, have 8 to 4084 bytes and
      add up; one that does not add up is dropped. */
  lemma EchoesWhatAddsUp(packet: seq<Byte>, size: Word32)
    requires |packet| >= HDR
    ensures UdpRcvSpec(packet, size).Echo? <==>
      UDP_HDR <= size <= 4084 && Offset(packet) + size <= |packet| && AddsUp(Covered(packet, size))
    ensures size <= 4084 && Offset(packet) + size <= |packet| ==>
      (UdpRcvSpec(packet, size) == Dropped <==> !AddsUp(Covered(packet, size)))
  {
    if size <= 4084 && Offset(packet) + size <= |packet| { AddsUpIsChecked(packet, size); }
  }

  /** And the answer goes to the sender with the ports exchanged and the data as they came. */
  lemma EchoAnswers(packet: seq<Byte>, size: Word32)
    requires |packet| >= HDR && UdpRcvSpec(packet, size).Echo?
    ensures var r, o := UdpRcvSpec(packet, size), Offset(packet);
      && o + size <= |packet| && size == UDP_HDR + |r.data|
      && Be32(r.saddr) == packet[12..16]
      && r.dport == Be(packet[o], packet[o + 1]) && r.sport == Be(packet[o + 2], packet[o + 3])
      && forall k :: 0 <= k < |r.data| ==> r.data[k] == packet[o + UDP_HDR + k]
  {
    Get32Back(packet[12..16]);
  }

  lemma Get32Back(b: seq<Byte>)
    requires |b| == 4
    ensures Be32(Get32(b)) == b
  {
    var v := Get32(b);
    var b0: int, b1: int, b2: int := b[0], b[1], b[2];
    assert v / 256 == 0x1_0000 * b0 + 256 * b1 + b2;
    assert v / 256 / 256 == 256 * b0 + b1;
  }

  lemma SegmentChanged(packet: seq<Byte>, changed: seq<Byte>, size: nat, k: nat, v: Word16, was: Word16)
    requires |packet| >= HDR && size <= 0xFFFF && Offset(packet) + size <= |packet| && HDR <= Offset(packet)
    requires k % 2 == 0 && k + 1 < size && changed == Stored(packet, Offset(packet) + k, v)
    requires was == Be(packet[Offset(packet) + k], packet[Offset(packet) + k + 1])
    ensures Offset(changed) == Offset(packet)
    ensures OneWord(Covered(packet, size), Covered(changed, size), FAKE_HDR + k, v, was)
  {
    var f := Fake(packet[12..16], packet[16..20], size);
    assert changed[12..16] == packet[12..16] && changed[16..20] == packet[16..20];
    assert UdpPart(changed, size) == Stored(UdpPart(packet, size), k, v);
    assert f + Stored(UdpPart(packet, size), k, v) == Stored(f + UdpPart(packet, size), FAKE_HDR + k, v);
    assert (FAKE_HDR + k) % 2 == 0;
  }

  /** The verdict is that of the checksum over what is covered. */
  lemma Verdict(packet: seq<Byte>, size: nat) returns (b: seq<Byte>, dropped: bool)
    requires |packet| >= HDR && size <= 4084 && Offset(packet) + size <= |packet|
    ensures b == Covered(packet, size) && dropped == (UdpRcvSpec(packet, size) == Dropped)
    ensures dropped <==> !AddsUp(b)
  {
    b, dropped := Covered(packet, size), UdpRcvSpec(packet, size) == Dropped;
    AddsUpIsChecked(packet, size);
    EchoesWhatAddsUp(packet, size);
  }

  /** What is covered before and after a change of one word, and the verdict after it. */
  lemma WordChanged(packet: seq<Byte>, size: nat, k: nat, v: Word16, changed: seq<Byte>, o: nat, was: Word16)
    returns (b: seq<Byte>, c: seq<Byte>, dropped: bool)
    requires |packet| >= HDR && size <= 4084 && o == Offset(packet) && o + size <= |packet| && HDR <= o
    requires AddsUp(Covered(packet, size)) && k % 2 == 0 && k + 1 < size
    requires changed == Stored(packet, o + k, v) && was == Be(packet[o + k], packet[o + k + 1])
    ensures AddsUp(b) && OneWord(b, c, FAKE_HDR + k, v, was)
    ensures dropped == (UdpRcvSpec(changed, size) == Dropped) && (dropped <==> !AddsUp(c))
  {
    b := Covered(packet, size);
    SegmentChanged(packet, changed, size, k, v, was);
    c, dropped := Verdict(changed, size);
  }

  /** A datagram that adds up, with one word of it changed on the way, is dropped, unless the
      word went from 0 to 0xFFFF or back. */
  lemma CorruptedWordDropped(packet: seq<Byte>, size: nat, k: nat, v: Word16, changed: seq<Byte>, o: nat, was: Word16)
    requires |packet| >= HDR && size <= 4084 && o == Offset(packet) && o + size <= |packet| && HDR <= o
    requires AddsUp(Covered(packet, size)) && k % 2 == 0 && k + 1 < size
    requires changed == Stored(packet, o + k, v) && was == Be(packet[o + k], packet[o + k + 1])
    ensures UdpRcvSpec(changed, size) == Dropped <==> !Unseen(was, v)
  {
    var b, c, dropped := WordChanged(packet, size, k, v, changed, o, was);
    ChangedWord(b, c, FAKE_HDR + k, v, was);
  }

  lemma LastByteChanged(packet: seq<Byte>, changed: seq<Byte>, size: nat, x: Byte, was: Byte)
    requires |packet| >= HDR && size <= 0xFFFF && Offset(packet) + size <= |packet| && HDR <= Offset(packet)
    requires size % 2 == 1 && changed == packet[Offset(packet) + size - 1 := x] && was == packet[Offset(packet) + size - 1]
    ensures Offset(changed) == Offset(packet)
    ensures LastByte(Covered(packet, size), Covered(changed, size), x, was)
  {
    assert changed[12..16] == packet[12..16] && changed[16..20] == packet[16..20];
    assert UdpPart(changed, size) == UdpPart(packet, size)[size - 1 := x];
    assert (FAKE_HDR + size) % 2 == 1;
  }

  lemma ByteChanged(packet: seq<Byte>, size: nat, x: Byte, changed: seq<Byte>, was: Byte)
    returns (b: seq<Byte>, c: seq<Byte>, dropped: bool)
    requires |packet| >= HDR && size <= 4084 && Offset(packet) + size <= |packet| && HDR <= Offset(packet)
    requires AddsUp(Covered(packet, size)) && size % 2 == 1 && was == packet[Offset(packet) + size - 1]
    requires changed == packet[Offset(packet) + size - 1 := x]
    ensures AddsUp(b) && LastByte(b, c, x, was)
    ensures dropped == (UdpRcvSpec(changed, size) == Dropped) && (dropped <==> !AddsUp(c))
  {
    b := Covered(packet, size);
    LastByteChanged(packet, changed, size, x, was);
    c, dropped := Verdict(changed, size);
  }

  /** The odd last byte is covered too, by any change. */
  lemma CorruptedLastByteDropped(packet: seq<Byte>, size: nat, x: Byte, changed: seq<Byte>)
    requires |packet| >= HDR && size <= 4084 && Offset(packet) + size <= |packet| && HDR <= Offset(packet)
    requires AddsUp(Covered(packet, size)) && size % 2 == 1 && x != packet[Offset(packet) + size - 1]
    requires changed == packet[Offset(packet) + size - 1 := x]
    ensures UdpRcvSpec(changed, size) == Dropped
  {
    var was := packet[Offset(packet) + size - 1];
    var b, c, dropped := ByteChanged(packet, size, x, changed, was);
    ChangedLastByte(b, c, x, was);
  }

  /** udp_send panics for more than 4076 bytes, up to where 20 more wrap; the twenty lengths above
      overrun the buffer; all others go to ip_send. */
  lemma SendLengths(devIp: Word32, known: bool, dst: Word32, dport: Word32, sport: Word32, data: seq<Byte>)
    requires |data| < 0x1_0000_0000
    ensures var r := UdpSendSpec(devIp, known, dst, dport, sport, data);
      && (r == Failed(NoBuffer) <==> 4076 < |data| < 0x1_0000_0000 - 20)
      && (r == Failed(Overran) <==> 0x1_0000_0000 - 20 <= |data|)
      && (r.Passed? <==> |data| <= 4076)
  {
  }

  // ----- ip_rcv

  /** Which packets come to an answer at all: the header's words sum to a multiple of 0xFFFF, it
      is UDP, and the length it states holds a datagram of 8 to 4084 bytes that adds up. */
  lemma PacketAnswered(packet: seq<Byte>)
    requires |packet| >= HDR
    ensures var o, tot := Offset(packet), TotalLength(packet);
      IpRcvSpec(packet).Echo? <==>
        && AddsUp(packet[..HDR]) && packet[9] == IP_P_UDP
        && o + UDP_HDR <= tot <= |packet| && tot - o <= 4084 && AddsUp(Covered(packet, tot - o))
  {
    ZeroChecksum(packet[..HDR]);
    AddsUpMod(packet[..HDR]);
    if packet[9] == IP_P_UDP { HeaderNotZero(packet[..HDR]); }
    EchoesWhatAddsUp(packet, UdpSize(packet));
  }

  lemma {:induction false} SumAtLeast(b: seq<Byte>, k: nat)
    requires k < |b|
    ensures Sum(b) >= b[k]
  {
    if k > 1 {
      SumAtLeast(b[2..], k - 2);
      assert b[2..][k - 2] == b[k];
    }
  }

  lemma HeaderNotZero(h: seq<Byte>)
    requires |h| == HDR && h[9] == IP_P_UDP
    ensures Sum(h) > 0
  {
    SumAtLeast(h, 9);
  }

  /** A packet whose header verifies, with one word of the header changed on the way, is dropped,
      unless the word went from 0 to 0xFFFF or back. */
  lemma CorruptedHeaderDropped(packet: seq<Byte>, k: nat, v: Word16)
    requires |packet| >= HDR && Of(packet[..HDR]) == 0 && k % 2 == 0 && k + 1 < HDR
    requires !Unseen(Be(packet[k], packet[k + 1]), v)
    ensures IpRcvSpec(Stored(packet, k, v)) == Dropped
  {
    var h := packet[..HDR];
    assert Stored(packet, k, v)[..HDR] == Stored(h, k, v);
    ZeroChecksum(h);
    AddsUpMod(h);
    ChangedWord(h, Stored(h, k, v), k, v, Be(packet[k], packet[k + 1]));
    AddsUpMod(Stored(h, k, v));
    ZeroChecksum(Stored(h, k, v));
  }

  /** And so is a whole answered packet with such a word changed in its segment. */
  lemma CorruptedPacketDropped(packet: seq<Byte>, k: nat, v: Word16)
    requires |packet| >= HDR && HDR <= Offset(packet) && IpRcvSpec(packet).Echo?
    requires k % 2 == 0 && Offset(packet) + k + 1 < TotalLength(packet) <= |packet|
    requires !Unseen(Be(packet[Offset(packet) + k], packet[Offset(packet) + k + 1]), v)
    ensures IpRcvSpec(Stored(packet, Offset(packet) + k, v)) == Dropped
  {
    var changed := Stored(packet, Offset(packet) + k, v);
    PacketAnswered(packet);
    assert changed[..HDR] == packet[..HDR];
    CorruptedWordDropped(packet, UdpSize(packet), k, v, changed, Offset(packet), Be(packet[Offset(packet) + k], packet[Offset(packet) + k + 1]));
  }
}
