/** Sending over IPv4 (net/ip.c): the header, the unfragmented path and the fragment loop. */
module Ip {
  import opened Checksum
  import opened Words

  const HDR := 20                 // sizeof(struct iphdr)
  const MTU := 1480               // 1500 - sizeof(struct iphdr)
  const DONT_FRAGMENT := 0x4000
  const MORE_FRAGMENTS := 0x2000
  const BROADCAST := 0xFFFF_FFFF

  function Hi(v: Word16): Byte { v / 256 }
  function Lo(v: Word16): Byte { v % 256 }

  function Be32(v: Word32): (b: seq<Byte>)
    ensures |b| == 4
  {
    [v / 256 / 256 / 256, v / 256 / 256 % 256, v / 256 % 256, v % 256]
  }

  /** The fields ip_send chooses per packet. */
  datatype Route = Route(id: Word16, protocol: Byte, saddr: Word32, daddr: Word32)

  /** The first 12 bytes, checksum still zero. */
  function HeaderStart(r: Route, totLen: Word16, frag: Word16): (h: seq<Byte>)
    ensures |h| == 12
  {
    [0x45, 0, Hi(totLen), Lo(totLen), Hi(r.id), Lo(r.id), Hi(frag), Lo(frag), 0x40, r.protocol, 0, 0]
  }

  /** The header with a zero checksum field. */
  function BareHeader(r: Route, totLen: Word16, frag: Word16): (h: seq<Byte>)
    ensures |h| == HDR
  {
    HeaderStart(r, totLen, frag) + Be32(r.saddr) + Be32(r.daddr)
  }

  function Header(r: Route, totLen: Word16, frag: Word16): (h: seq<Byte>)
    ensures |h| == HDR
  {
    var bare := BareHeader(r, totLen, frag);
    Stored(bare, 10, Of(bare))
  }

  /** What happens to a send: packets go out, it is refused (-1), or memcpy is given a length
      that wrapped below zero. */
  datatype Outcome = Sent(packets: seq<seq<Byte>>) | Refused | WildCopy

  // ----- specification of the two paths

  function Whole(r: Route, data: seq<Byte>): seq<Byte>
    requires |data| <= MTU
  {
    Header(r, HDR + |data|, DONT_FRAGMENT) + data
  }

  /** Bytes of the datagram one iteration of the loop accounts for. */
  function SliceSize(size: nat): (n: nat)
    ensures n <= size && n <= MTU && (size > 0 ==> n > 0)
    ensures n < size ==> n == MTU
  {
    var n := if size > MTU then MTU else size;
    if n < size then n - n % 8 else n
  }

  function FragField(size: nat, off: nat): Word16
    requires off < MORE_FRAGMENTS
  {
    (if size > MTU then MORE_FRAGMENTS else 0) + off
  }

  /** The loop, with `size` bytes still accounted for and the data pointer at `at`. */
  function Fragments(r: Route, data: seq<Byte>, at: nat, size: nat, off: nat): Outcome
    requires at + size <= |data| && 8 * off + size <= 0xFFFF
    decreases size
  {
    if size == 0 then Sent([]) else
      var n := SliceSize(size);
      if n < HDR then WildCopy else
        var packet := Header(r, n, FragField(size, off)) + data[at..at + n - HDR];
        match Fragments(r, data, at + n - HDR, size - n, off + n / 8)
        case Sent(rest) => Sent([packet] + rest)
        case failed => failed
  }

  function Routed(r: Route): Route {
    if r.daddr == 0 then r.(daddr := BROADCAST) else r
  }

  /** known: the ARP table has an entry for the destination. */
  function Send(r: Route, known: bool, data: seq<Byte>): Outcome
    requires |data| <= 0xFFFF
  {
    if r.daddr != 0 && !known then Refused
    else if MTU < |data| then Fragments(Routed(r), data, 0, |data|, 0)
    else Sent([Whole(Routed(r), data)])
  }

  // ----- the code

  method PutBe16(buffer: array<Byte>, i: nat, v: Word16)
    requires i + 1 < buffer.Length
    modifies buffer
    ensures buffer[..] == old(buffer[..])[i := Hi(v)][i + 1 := Lo(v)]
  {
    buffer[i] := v / 256;
    buffer[i + 1] := v % 256;
  }

  /** memcpy into the buffer at offset i. */
  method CopyIn(buffer: array<Byte>, i: nat, data: seq<Byte>)
    requires i + |data| <= buffer.Length
    modifies buffer
    ensures buffer[..] == old(buffer[..i]) + data + old(buffer[i + |data|..])
  {
    for k := 0 to |data|
      invariant buffer[..i] == old(buffer[..i]) && buffer[i..i + k] == data[..k]
      invariant buffer[i + k..] == old(buffer[i + k..])
    {
      buffer[i + k] := data[k];
    }
    assert buffer[..] == buffer[..i] + buffer[i..i + |data|] + buffer[i + |data|..];
  }

  method PutBe32(buffer: array<Byte>, i: nat, v: Word32)
    requires i + 4 <= buffer.Length
    modifies buffer
    ensures buffer[..i] == old(buffer[..i]) && buffer[i..i + 4] == Be32(v) && buffer[i + 4..] == old(buffer[i + 4..])
  {
    buffer[i], buffer[i + 1], buffer[i + 2], buffer[i + 3] :=
      v / 256 / 256 / 256, v / 256 / 256 % 256, v / 256 % 256, v % 256;
  }

  method FillStart(buffer: array<Byte>, r: Route, totLen: Word16, frag: Word16)
    requires HDR <= buffer.Length && buffer[1] == buffer[10] == buffer[11] == 0
    modifies buffer
    ensures buffer[..12] == HeaderStart(r, totLen, frag) && buffer[12..] == old(buffer[12..])
  {
    buffer[0], buffer[2], buffer[3], buffer[4] := 0x45, Hi(totLen), Lo(totLen), Hi(r.id);
    buffer[5], buffer[6], buffer[7], buffer[8], buffer[9] := Lo(r.id), Hi(frag), Lo(frag), 0x40, r.protocol;
    ghost var h := buffer[..12];
    assert h[0] == 0x45 && h[1] == 0 && h[2] == Hi(totLen) && h[3] == Lo(totLen);
    assert h[4] == Hi(r.id) && h[5] == Lo(r.id) && h[6] == Hi(frag) && h[7] == Lo(frag);
    assert h[8] == 0x40 && h[9] == r.protocol && h[10] == 0 && h[11] == 0;
  }

  /** Fills the header fields of a zeroed buffer. */
  method FillHeader(buffer: array<Byte>, r: Route, totLen: Word16, frag: Word16)
    requires HDR <= buffer.Length && forall i :: 0 <= i < HDR ==> buffer[i] == 0
    modifies buffer
    ensures buffer[..HDR] == BareHeader(r, totLen, frag) && buffer[HDR..] == old(buffer[HDR..])
  {
    FillStart(buffer, r, totLen, frag);
    assert buffer[HDR..] == buffer[12..][8..];
    assert old(buffer[HDR..]) == old(buffer[12..][8..]);
    FillAddresses(buffer, r);
  }

  method FillAddresses(buffer: array<Byte>, r: Route)
    requires HDR <= buffer.Length
    modifies buffer
    ensures buffer[..HDR] == old(buffer[..12]) + Be32(r.saddr) + Be32(r.daddr) && buffer[HDR..] == old(buffer[HDR..])
  {
    PutBe32(buffer, 16, r.daddr);
    assert buffer[..12] == buffer[..16][..12] && buffer[16..20] == Be32(r.daddr);
    label L:
    PutBe32(buffer, 12, r.saddr);
    assert buffer[16..20] == buffer[16..][..4];
    assert old@L(buffer[16..20]) == old@L(buffer[16..][..4]);
    assert buffer[..HDR] == buffer[..12] + buffer[12..16] + buffer[16..20];
    assert buffer[HDR..] == buffer[16..][4..] == old@L(buffer[16..][4..]) == old@L(buffer[HDR..]);
  }

  /** Header, payload, then the checksum over the header. */
  method BuildPacket(r: Route, totLen: Word16, frag: Word16, payload: seq<Byte>) returns (buffer: array<Byte>)
    ensures fresh(buffer) && buffer[..] == Header(r, totLen, frag) + payload
  {
    buffer := new Byte[HDR + |payload|](_ => 0);
    FillHeader(buffer, r, totLen, frag);
    CopyIn(buffer, HDR, payload);
    assert buffer[..] == BareHeader(r, totLen, frag) + payload;
    assert buffer[..HDR] == BareHeader(r, totLen, frag);
    var check := IpHdrChecksum(buffer, HDR);
    PutBe16(buffer, 10, check);
    StoredPrefix(BareHeader(r, totLen, frag), payload, check);
  }

  lemma StoredPrefix(h: seq<Byte>, payload: seq<Byte>, v: Word16)
    requires |h| == HDR
    ensures Stored(h + payload, 10, v) == Stored(h, 10, v) + payload
    ensures (h + payload)[10 := Hi(v)][11 := Lo(v)] == Stored(h + payload, 10, v)
  {
  }

  /** One iteration: the packet for the slice, or none if the slice is shorter than a header. */
  method SendSlice(r: Route, data: seq<Byte>, dataP: nat, size: nat, fragOff: nat, currentSize: nat) returns (packet: seq<Byte>)
    requires 0 < size && dataP + size <= |data| && 8 * fragOff + size <= 0xFFFF
    requires currentSize == SliceSize(size) && HDR <= currentSize
    ensures packet == Header(r, currentSize, FragField(size, fragOff)) + data[dataP..dataP + currentSize - HDR]
  {
    var dataSize := currentSize - HDR;
    var frag := 0;
    if size > MTU { frag := MORE_FRAGMENTS; }
    frag := frag + fragOff;
    var buffer := BuildPacket(r, currentSize, frag, data[dataP..dataP + dataSize]);
    packet := buffer[..];
  }

  /** The bytes one iteration accounts for. */
  method CurrentSize(size: nat) returns (n: nat)
    ensures n == SliceSize(size)
  {
    n := size;
    if n > MTU { n := MTU; }
    if n < size { n := n - n % 8; }
  }

  /** After a slice with more to come the offset counts exactly the bytes accounted for. */
  lemma SliceStep(size: nat, off: nat, n: nat)
    requires n == SliceSize(size)
    ensures n < size ==> n % 8 == 0 && 8 * (off + n / 8) + (size - n) == 8 * off + size
    ensures 8 * (off + n / 8) + (size - n) <= 8 * off + size
  {
  }

  method SendFragments(r: Route, data: seq<Byte>) returns (out: Outcome)
    requires |data| <= 0xFFFF
    ensures out == Fragments(r, data, 0, |data|, 0)
  {
    var packets: seq<seq<Byte>> := [];
    var size: nat, dataP: nat, fragOff: nat := |data|, 0, 0;
    while size > 0
      invariant dataP + size <= |data| && 8 * fragOff + size <= 0xFFFF
      invariant Fragments(r, data, 0, |data|, 0)
             == Prepend(packets, Fragments(r, data, dataP, size, fragOff))
    {
      var currentSize := CurrentSize(size);
      SliceStep(size, fragOff, currentSize);
      if currentSize < HDR { return WildCopy; }
      var packet := SendSlice(r, data, dataP, size, fragOff, currentSize);
      PrependStep(r, data, packets, packet, dataP, size, fragOff, currentSize);
      packets := packets + [packet];
      fragOff := fragOff + currentSize / 8;
      dataP := dataP + (currentSize - HDR);
      size := size - currentSize;
    }
    out := Sent(packets);
  }

  lemma PrependStep(r: Route, data: seq<Byte>, packets: seq<seq<Byte>>, packet: seq<Byte>, at: nat, size: nat, off: nat, n: nat)
    requires 0 < size && at + size <= |data| && 8 * off + size <= 0xFFFF && n == SliceSize(size) && HDR <= n
    requires packet == Header(r, n, FragField(size, off)) + data[at..at + n - HDR]
    ensures Prepend(packets, Fragments(r, data, at, size, off))
         == Prepend(packets + [packet], Fragments(r, data, at + n - HDR, size - n, off + n / 8))
  {
    var rest := Fragments(r, data, at + n - HDR, size - n, off + n / 8);
    if rest.Sent? {
      assert packets + ([packet] + rest.packets) == (packets + [packet]) + rest.packets;
    }
  }

  ghost function Prepend(packets: seq<seq<Byte>>, out: Outcome): Outcome {
    match out
    case Sent(rest) => Sent(packets + rest)
    case failed => failed
  }

  method IpSend(r: Route, known: bool, data: seq<Byte>) returns (out: Outcome)
    requires |data| <= 0xFFFF
    ensures out == Send(r, known, data)
  {
    var route := r;
    if r.daddr == 0 {
      route := r.(daddr := BROADCAST);
    } else if !known {
      return Refused;
    }
    if MTU < |data| {
      out := SendFragments(route, data);
    } else {
      var buffer := BuildPacket(route, HDR + |data|, DONT_FRAGMENT, data);
      out := Sent([buffer[..]]);
    }
  }
}
