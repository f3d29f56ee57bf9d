/** What the fragment loop of ip_send accounts for, what it transmits, and when the receiver
    gets the datagram back (section 3.2 of RFC 791). */
module Fragmentation {
  import opened Checksum
  import opened Ip
  import opened Words
  import opened Wrappers

  const OFFSET_LIMIT := 0x2000    // 13 bits

  /** One iteration's share of the datagram: offset in 8-byte units, length, more-fragments. */
  datatype Slice = Slice(off: nat, len: nat, more: bool)

  function Slices(size: nat, off: nat): seq<Slice>
    decreases size
  {
    if size == 0 then [] else
      var n := SliceSize(size);
      [Slice(off, n, size > MTU)] + Slices(size - n, off + n / 8)
  }

  ghost predicate SliceOk(ss: seq<Slice>, off: nat, end: nat, i: nat)
    requires i < |ss|
  {
    && ss[i].len > 0 && ss[i].off < OFFSET_LIMIT
    && (ss[i].more <==> i + 1 < |ss|)
    && (ss[i].more ==> ss[i].len % 8 == 0)
    && (i == 0 ==> ss[i].off == off)
    && 8 * ss[i].off + ss[i].len == if i + 1 < |ss| then 8 * ss[i + 1].off else end
  }

  lemma {:induction false} SlicesOk(size: nat, off: nat, end: nat)
    requires 0 < size && 8 * off + size == end <= 0xFFFF
    ensures var ss := Slices(size, off);
      |ss| > 0 && forall i :: 0 <= i < |ss| ==> SliceOk(ss, off, end, i)
    decreases size
  {
    var n, ss := SliceSize(size), Slices(size, off);
    var rest := Slices(size - n, off + n / 8);
    if n < size {
      SlicesOk(size - n, off + n / 8, end);
      forall i | 0 <= i < |ss| ensures SliceOk(ss, off, end, i) {
        if i > 0 {
          assert SliceOk(rest, off + n / 8, end, i - 1);
          assert ss[i] == rest[i - 1];
          assert i + 1 < |ss| ==> ss[i + 1] == rest[i];
        } else {
          assert SliceOk(rest, off + n / 8, end, 0);
          assert ss[1] == rest[0];
        }
      }
    } else {
      assert rest == [] && ss == [Slice(off, n, size > MTU)];
    }
  }

  ghost predicate MeetsNext(ss: seq<Slice>, i: nat)
    requires i + 1 < |ss|
  {
    ss[i].len % 8 == 0 && 8 * ss[i].off + ss[i].len == 8 * ss[i + 1].off
  }

  /** The slices tile [0, size): each starts where the one before ends, offsets fit 13 bits,
      every slice but the last is a multiple of 8 long and flagged more-fragments. */
  lemma SlicesTile(size: nat)
    requires 0 < size <= 0xFFFF
    ensures var ss := Slices(size, 0);
      && |ss| > 0 && ss[0].off == 0 && 8 * ss[|ss| - 1].off + ss[|ss| - 1].len == size
      && (forall i :: 0 <= i < |ss| ==> ss[i].off < OFFSET_LIMIT && (ss[i].more <==> i < |ss| - 1))
      && (forall i :: 0 <= i < |ss| - 1 ==> MeetsNext(ss, i))
  {
    SlicesOk(size, 0, size);
    var ss := Slices(size, 0);
    forall i | 0 <= i < |ss|
      ensures ss[i].off < OFFSET_LIMIT && (ss[i].more <==> i < |ss| - 1)
    {
      assert SliceOk(ss, 0, size, i);
    }
    forall i | 0 <= i < |ss| - 1 ensures MeetsNext(ss, i) {
      assert SliceOk(ss, 0, size, i);
    }
    assert SliceOk(ss, 0, size, 0) && SliceOk(ss, 0, size, |ss| - 1);
  }

  // ----- reassembly

  datatype Piece = Piece(at: nat, more: bool, bytes: seq<Byte>)

  /** What a receiver reads from a fragment. */
  function PieceOf(packet: seq<Byte>): Piece
    requires |packet| >= HDR
  {
    var frag := Be(packet[6], packet[7]);
    Piece(8 * (frag % OFFSET_LIMIT), frag / MORE_FRAGMENTS % 2 == 1, packet[HDR..])
  }

  ghost function PiecesOf(packets: seq<seq<Byte>>): seq<Piece> {
    seq(|packets|, i requires 0 <= i < |packets| => if |packets[i]| >= HDR then PieceOf(packets[i]) else Piece(0, false, []))
  }

  /** The datagram, once the pieces in order leave no gap up to one without more-fragments. */
  function Reassemble(pieces: seq<Piece>, pos: nat): Option<seq<Byte>>
    decreases |pieces|
  {
    if pieces == [] || pieces[0].at != pos then None
    else if !pieces[0].more then (if |pieces| == 1 then Some(pieces[0].bytes) else None)
    else
      match Reassemble(pieces[1..], pos + |pieces[0].bytes|)
      case None => None
      case Some(rest) => Some(pieces[0].bytes + rest)
  }

  /** The pieces the accounting describes: slice i carries its own bytes. */
  function PayloadPieces(data: seq<Byte>, size: nat, off: nat): (ps: seq<Piece>)
    requires 8 * off + size == |data|
    decreases size
  {
    if size == 0 then [] else
      var n := SliceSize(size);
      [Piece(8 * off, size > MTU, data[8 * off..8 * off + n])]
      + (if n < size then PayloadPieces(data, size - n, off + n / 8) else [])
  }

  /** With payload-sized accounting reassembly gives the payload back. */
  lemma {:induction false} AccountingReassembles(data: seq<Byte>, size: nat, off: nat)
    requires size > 0 && 8 * off + size == |data|
    ensures Reassemble(PayloadPieces(data, size, off), 8 * off) == Some(data[8 * off..])
    decreases size
  {
    var n := SliceSize(size);
    if n < size {
      AccountingReassembles(data, size - n, off + n / 8);
      var ps := PayloadPieces(data, size, off);
      assert ps[1..] == PayloadPieces(data, size - n, off + n / 8);
      assert data[8 * off..] == data[8 * off..8 * off + n] + data[8 * off + n..];
    } else {
      assert data[8 * off..8 * off + n] == data[8 * off..];
    }
  }

  // ----- what the code transmits

  lemma BytesOfWord(f: Word16)
    ensures Be(Hi(f), Lo(f)) == f
  {
    assert f == 256 * (f / 256) + f % 256;
  }

  lemma FlagAndOffset(f: nat, flag: nat, off: nat)
    requires off < 0x2000 && flag <= 1 && f == 0x2000 * flag + off
    ensures f % 0x2000 == off && f / 0x2000 == flag
  {
    if flag == 0 { assert f == off; } else { assert f == 0x2000 + off; }
  }

  lemma FragBytes(off: nat, more: bool)
    requires off < OFFSET_LIMIT
    ensures var f := (if more then MORE_FRAGMENTS else 0) + off;
      f < 0x1_0000 && Be(Hi(f), Lo(f)) == f && f % OFFSET_LIMIT == off && (f / MORE_FRAGMENTS % 2 == 1 <==> more)
  {
    var f := (if more then MORE_FRAGMENTS else 0) + off;
    BytesOfWord(f);
    FlagAndOffset(f, if more then 1 else 0, off);
  }

  lemma HeaderFields(r: Route, totLen: Word16, frag: Word16, payload: seq<Byte>)
    ensures var p := Header(r, totLen, frag) + payload;
      && p[6] == Hi(frag) && p[7] == Lo(frag) && p[2] == Hi(totLen) && p[3] == Lo(totLen)
      && p[HDR..] == payload && p[..HDR] == Header(r, totLen, frag)
  {
  }

  /** Every packet ip_send builds has a header that passes ip_rcv's check. */
  lemma HeaderVerifies(r: Route, totLen: Word16, frag: Word16)
    ensures Of(Header(r, totLen, frag)) == 0
  {
    StoredChecksumVerifies(BareHeader(r, totLen, frag), 10);
  }

  /** Packet i states slice i's offset, flag and length, but carries 20 bytes fewer, read from
      a data pointer that has fallen 20 bytes behind per packet. */
  ghost predicate PacketIs(r: Route, data: seq<Byte>, p: seq<Byte>, s: Slice, at: nat) {
    && HDR <= s.len <= MTU && |p| == s.len && at + s.len - HDR <= |data|
    && PieceOf(p) == Piece(8 * s.off, s.more, data[at..at + s.len - HDR])
    && Of(p[..HDR]) == 0
  }

  /** Packet i follows slice i, for a loop entered at offset `off` with its data pointer at `at`. */
  ghost predicate Follows(r: Route, data: seq<Byte>, ps: seq<seq<Byte>>, ss: seq<Slice>, off: nat, at: nat, i: nat)
    requires i < |ps| && i < |ss|
  {
    var pos := 8 * (ss[i].off - off) - HDR * i + at;
    pos >= 0 && PacketIs(r, data, ps[i], ss[i], pos)
  }

  lemma FirstFollows(r: Route, data: seq<Byte>, at: nat, size: nat, off: nat)
    requires 0 < size && at + size <= |data| && off < OFFSET_LIMIT && HDR <= SliceSize(size)
    ensures var n := SliceSize(size);
      PacketIs(r, data, Header(r, n, FragField(size, off)) + data[at..at + n - HDR], Slice(off, n, size > MTU), at)
  {
    var n := SliceSize(size);
    FragBytes(off, size > MTU);
    HeaderFields(r, n, FragField(size, off), data[at..at + n - HDR]);
    HeaderVerifies(r, n, FragField(size, off));
  }

  /** Packets that follow their slices from the second round on, behind a first one that does. */
  lemma AllFollow(r: Route, data: seq<Byte>, ps: seq<seq<Byte>>, ss: seq<Slice>, off: nat, at: nat,
        ps1: seq<seq<Byte>>, ss1: seq<Slice>, off1: nat, at1: nat)
    requires |ps| == |ss| > 0 && ps1 == ps[1..] && ss1 == ss[1..]
    requires 8 * (off1 - off) == ss[0].len && at1 == at + ss[0].len - HDR
    requires Follows(r, data, ps, ss, off, at, 0)
    requires forall i :: 0 <= i < |ps1| ==> Follows(r, data, ps1, ss1, off1, at1, i)
    ensures forall i :: 0 <= i < |ps| ==> Follows(r, data, ps, ss, off, at, i)
  {
    forall i | 1 <= i < |ps| ensures Follows(r, data, ps, ss, off, at, i) {
      assert Follows(r, data, ps1, ss1, off1, at1, i - 1);
      assert ps1[i - 1] == ps[i] && ss1[i - 1] == ss[i];
    }
  }

  /** The last slice is shorter than a multiple of 8 only when nothing follows it. */
  lemma {:induction false} FragmentsFollowSlices(r: Route, data: seq<Byte>, at: nat, size: nat, off: nat)
    requires at + size <= |data| && 8 * off + size <= 0xFFFF && Fragments(r, data, at, size, off).Sent?
    ensures var ps, ss := Fragments(r, data, at, size, off).packets, Slices(size, off);
      |ps| == |ss| && forall i :: 0 <= i < |ps| ==> Follows(r, data, ps, ss, off, at, i)
    decreases size
  {
    if size > 0 {
      var n, ss, ps := SliceSize(size), Slices(size, off), Fragments(r, data, at, size, off).packets;
      FirstFollows(r, data, at, size, off);
      assert Follows(r, data, ps, ss, off, at, 0);
      if size - n > 0 {
        SliceStep(size, off, n);
        var off1, at1 := off + n / 8, at + n - HDR;
        FragmentsFollowSlices(r, data, at1, size - n, off1);
        var ps1, ss1 := Fragments(r, data, at1, size - n, off1).packets, Slices(size - n, off1);
        assert ps[1..] == ps1 && ss[1..] == ss1;
        AllFollow(r, data, ps, ss, off, at, ps1, ss1, off1, at1);
      }
    }
  }

  /** Some iteration of the loop is left with less than a header to account for. */
  predicate RunsShort(size: nat) {
    size > 0 && (SliceSize(size) < HDR || RunsShort(size - SliceSize(size)))
  }

  lemma {:induction false} RunsShortWhen(size: nat)
    ensures RunsShort(size) <==> 0 < size % 1480 < HDR
  {
    if size > MTU {
      RunsShortWhen(size - 1480);
    }
  }

  /** The loop copies from a wrapped length exactly when the last slice is shorter than a header. */
  lemma {:induction false} WildCopyWhen(r: Route, data: seq<Byte>, at: nat, size: nat, off: nat)
    requires at + size <= |data| && 8 * off + size <= 0xFFFF
    ensures !Fragments(r, data, at, size, off).Refused?
    ensures Fragments(r, data, at, size, off).WildCopy? <==> 0 < size % 1480 < HDR
    decreases size
  {
    RunsShortWhen(size);
    WildCopyIsShort(r, data, at, size, off);
  }

  lemma {:induction false} WildCopyIsShort(r: Route, data: seq<Byte>, at: nat, size: nat, off: nat)
    requires at + size <= |data| && 8 * off + size <= 0xFFFF
    ensures !Fragments(r, data, at, size, off).Refused?
    ensures Fragments(r, data, at, size, off).WildCopy? <==> RunsShort(size)
    decreases size
  {
    if size > 0 && SliceSize(size) >= HDR {
      var n := SliceSize(size);
      WildCopyIsShort(r, data, at + n - HDR, size - n, off + n / 8);
    }
  }

  /** Payload byte 1460 of a fragmented datagram travels in no fragment. */
  lemma FragmentsLeaveHole(r: Route, data: seq<Byte>, i: nat)
    requires MTU < |data| <= 0xFFFF && Fragments(r, data, 0, |data|, 0).Sent?
    requires i < |Fragments(r, data, 0, |data|, 0).packets|
    ensures var ps := Fragments(r, data, 0, |data|, 0).packets;
      |ps[i]| >= HDR && var p := PieceOf(ps[i]);
      !(p.at <= MTU - HDR < p.at + |p.bytes|) && (i > 0 ==> p.at >= MTU) && p.more == (i < |ps| - 1)
  {
    var ss := Slices(|data|, 0);
    FragmentsFollowSlices(r, data, 0, |data|, 0);
    var ps := Fragments(r, data, 0, |data|, 0).packets;
    assert Follows(r, data, ps, ss, 0, 0, i);
    SlicesTile(|data|);
    if i > 0 { LaterSlices(|data|, i); }
  }

  lemma {:induction false} LaterSlices(size: nat, i: nat)
    requires MTU < size <= 0xFFFF && 0 < i < |Slices(size, 0)|
    ensures 8 * Slices(size, 0)[i].off >= MTU
  {
    var ss := Slices(size, 0);
    SlicesOk(size, 0, size);
    assert SliceOk(ss, 0, size, i - 1) && SliceOk(ss, 0, size, 0);
    if i > 1 { LaterSlices(size, i - 1); }
  }

  /** ip_send delivers the datagram exactly when it fits one packet: its loop charges each
      header against the payload, so fragments never add up. */
  lemma SendDelivers(r: Route, known: bool, data: seq<Byte>)
    requires |data| <= 0xFFFF && (r.daddr == 0 || known)
    ensures (var out := Send(r, known, data); out.Sent? && Reassemble(PiecesOf(out.packets), 0) == Some(data))
        <==> |data| <= MTU
  {
    var out, route := Send(r, known, data), Routed(r);
    if |data| <= MTU {
      HeaderFields(route, HDR + |data|, DONT_FRAGMENT, data);
      var p := Whole(route, data);
      assert Be(Hi(DONT_FRAGMENT), Lo(DONT_FRAGMENT)) == DONT_FRAGMENT;
      assert PieceOf(p) == Piece(0, false, data);
      assert PiecesOf([p]) == [Piece(0, false, data)];
    } else if out.Sent? {
      var ps := out.packets;
      FragmentsFollowSlices(route, data, 0, |data|, 0);
      SlicesTile(|data|);
      FragmentsLeaveHole(route, data, 0);
      assert |Slices(|data|, 0)| > 1;
      FragmentsLeaveHole(route, data, 1);
      assert Follows(route, data, ps, Slices(|data|, 0), 0, 0, 0);
      var pieces := PiecesOf(ps);
      assert pieces[1..][0] == PieceOf(ps[1]);
      assert Reassemble(pieces[1..], |pieces[0].bytes|) == None;
    }
  }

  /** The smallest datagram that is lost, and one whose last slice sends memcpy out of range. */
  lemma FirstFailures(r: Route, data: seq<Byte>, data': seq<Byte>)
    requires |data| == MTU + HDR && |data'| == MTU + 1 && r.daddr != 0
    ensures Send(r, true, data).Sent? && Reassemble(PiecesOf(Send(r, true, data).packets), 0) != Some(data)
    ensures Send(r, true, data') == WildCopy
  {
    WildCopyWhen(r, data, 0, |data|, 0);
    WildCopyWhen(r, data', 0, |data'|, 0);
    SendDelivers(r, true, data);
  }

  // ----- the other header fields

  /** Version, TTL, identification, protocol and addresses. */
  ghost predicate Addressed(r: Route, p: seq<Byte>) {
    && |p| >= HDR && p[0] == 0x45 && p[1] == 0 && p[8] == 0x40
    && Be(p[4], p[5]) == r.id && p[9] == r.protocol && p[12..16] == Be32(r.saddr) && p[16..20] == Be32(r.daddr)
  }

  lemma HeaderAddressed(r: Route, totLen: Word16, frag: Word16, payload: seq<Byte>)
    ensures Addressed(r, Header(r, totLen, frag) + payload)
  {
    BytesOfWord(r.id);
  }

  lemma {:induction false} FragmentsAddressed(r: Route, data: seq<Byte>, at: nat, size: nat, off: nat, k: nat)
    requires at + size <= |data| && 8 * off + size <= 0xFFFF && Fragments(r, data, at, size, off).Sent?
    requires k < |Fragments(r, data, at, size, off).packets|
    ensures Addressed(r, Fragments(r, data, at, size, off).packets[k])
    decreases size
  {
    var n := SliceSize(size);
    SliceStep(size, off, n);
    if k == 0 {
      HeaderAddressed(r, n, FragField(size, off), data[at..at + n - HDR]);
    } else {
      FragmentsAddressed(r, data, at + n - HDR, size - n, off + n / 8, k - 1);
    }
  }

  /** ip_send refuses exactly an unknown destination other than 0. What it sends, whole or in
      fragments, names the sender, the protocol and the identification given, and as destination
      the one given, or 255.255.255.255 in place of 0; a whole packet forbids fragmenting. */
  lemma SendAddresses(r: Route, known: bool, data: seq<Byte>)
    requires |data| <= 0xFFFF
    ensures Send(r, known, data).Refused? <==> r.daddr != 0 && !known
    ensures Send(r, known, data).Sent? ==>
      forall k :: 0 <= k < |Send(r, known, data).packets| ==>
        Addressed(r.(daddr := if r.daddr == 0 then 0xFFFF_FFFF else r.daddr), Send(r, known, data).packets[k])
    ensures Send(r, known, data).Sent? && |data| <= MTU ==>
      |Send(r, known, data).packets| == 1 && Be(Send(r, known, data).packets[0][6], Send(r, known, data).packets[0][7]) == 0x4000
  {
    var out, route := Send(r, known, data), Routed(r);
    if MTU < |data| { WildCopyWhen(route, data, 0, |data|, 0); }
    if out.Sent? {
      forall k | 0 <= k < |out.packets| ensures Addressed(route, out.packets[k]) {
        if |data| <= MTU {
          HeaderAddressed(route, HDR + |data|, DONT_FRAGMENT, data);
        } else {
          FragmentsAddressed(route, data, 0, |data|, 0, k);
        }
      }
      if |data| <= MTU {
        HeaderFields(route, HDR + |data|, DONT_FRAGMENT, data);
        BytesOfWord(DONT_FRAGMENT);
      }
    }
  }
}
