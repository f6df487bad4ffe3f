/** The frame the server builds in its one transmit buffer, and the buffer itself. */

module TcpFrame {
  import opened Checksum
  import opened Words

  const MY_MAC: seq<byte> := [0x60, 0xe3, 0x27, 0x04, 0xd5, 0xe3]
  const MY_IP: seq<byte> := [0xa9, 0xfe, 0xe5, 0x0e]
  const FRAME_LEN := 1518

  /** The peer latched from its SYN; the port is in network order. */
  datatype Peer = Peer(mac: seq<byte>, ip: seq<byte>, port: u16)

  /** The contents of one transmitted segment. */
  datatype Packet = Packet(peer: Peer, flags: byte, headerLen: nat, seqNum: u32, ackNum: u32, payload: seq<byte>)

  predicate PeerOk(p: Peer) {
    |p.mac| == 6 && |p.ip| == 4
  }

  predicate PacketOk(p: Packet) {
    && PeerOk(p.peer)
    && (p.headerLen == 20 || p.headerLen == 32)
    && 54 + |p.payload| + |p.payload| % 2 <= FRAME_LEN
  }

  function Be16(x: u16): (s: seq<byte>)
    ensures |s| == 2
  {
    [x / 0x100, x % 0x100]
  }

  function Be32(x: u32): (s: seq<byte>)
    ensures |s| == 4
  {
    [x / 0x100_0000, x / 0x1_0000 % 0x100, x / 0x100 % 0x100, x % 0x100]
  }

  function Ethernet(p: Packet): seq<byte> {
    p.peer.mac + MY_MAC + [0x08, 0x00]
  }

  /** The twenty bytes of RFC 791, section 3.1, around a checksum field. */
  function IpHeader(p: Packet, checksum: u16): (s: seq<byte>)
    requires PacketOk(p)
    ensures |s| == 20
  {
    [0x45, 0x00] + Be16(40 + |p.payload|) + [0x17, 0xe1, 0x40, 0x00, 0x80, 0x06]
    + Be16(checksum) + MY_IP + p.peer.ip
  }

  /** The segment of RFC 9293, section 3.1, around a checksum field. The fixed
      part is always twenty bytes; options travel as payload. */
  function Segment(p: Packet, checksum: u16): (s: seq<byte>)
    requires PacketOk(p)
    ensures |s| == 20 + |p.payload|
  {
    [0x00, 0x50] + Be16(p.peer.port) + Be32(p.seqNum) + Be32(p.ackNum)
    + [p.headerLen / 4 * 16, p.flags, 0xfa, 0xf0] + Be16(checksum) + [0x00, 0x00] + p.payload
  }

  function IpSum(p: Packet): u16
    requires PacketOk(p)
  {
    0xFFFF - Fold(WordSum(IpHeader(p, 0)))
  }

  /** `stale` is the byte that follows the payload in the buffer; an odd length sums it too. */
  function TcpSum(p: Packet, stale: byte): u16
    requires PacketOk(p)
  {
    var summed := Segment(p, 0) + (if |p.payload| % 2 == 1 then [stale] else []);
    0xFFFF - Fold(PseudoSum(MY_IP, p.peer.ip, 20 + |p.payload|) + WordSum(summed))
  }

  function Frame(p: Packet, stale: byte): (s: seq<byte>)
    requires PacketOk(p)
    ensures |s| == 54 + |p.payload|
  {
    Ethernet(p) + IpHeader(p, IpSum(p)) + Segment(p, TcpSum(p, stale))
  }

  // ------------------------------------------------------------ the receiver

  /** A receiver's check of the IPv4 header. */
  predicate IpAccepts(frame: seq<byte>)
    requires |frame| >= 54
  {
    Fold(WordSum(frame[14..34])) == 0xFFFF
  }

  /** The twelve bytes that a receiver puts before the segment: both addresses,
      a zero, the protocol of the IPv4 header and the segment's length
      (section 3.1 of RFC 9293). */
  function PseudoHeader(frame: seq<byte>): (s: seq<byte>)
    requires 54 <= |frame| <= FRAME_LEN
    ensures |s| == 12
  {
    frame[26..34] + [0, frame[23]] + Be16(|frame| - 34)
  }

  /** A receiver's check of pseudo-header plus segment. */
  predicate TcpAccepts(frame: seq<byte>)
    requires 54 <= |frame| <= FRAME_LEN
  {
    Fold(WordSum(PseudoHeader(frame) + frame[34..])) == 0xFFFF
  }

  lemma Be16Sum(x: u16)
    ensures WordSum(Be16(x)) == x
  {
    TwoBytes(x / 0x100, x % 0x100);
  }

  /** A checksum field adds exactly its value. */
  lemma FieldSum(before: seq<byte>, checksum: u16, after: seq<byte>)
    requires |before| % 2 == 0
    ensures WordSum(before + Be16(checksum) + after) == WordSum(before + Be16(0) + after) + checksum
  {
    assert forall x: u16 :: before + Be16(x) + after == before + (Be16(x) + after);
    WordSumAppend(before, Be16(checksum) + after);
    WordSumAppend(before, Be16(0) + after);
    WordSumAppend(Be16(checksum), after);
    WordSumAppend(Be16(0), after);
    Be16Sum(checksum);
    Be16Sum(0);
  }

  lemma IpFieldSum(p: Packet, checksum: u16)
    requires PacketOk(p)
    ensures WordSum(IpHeader(p, checksum)) == WordSum(IpHeader(p, 0)) + checksum
    ensures WordSum(IpHeader(p, 0)) > 0
  {
    var before := [0x45, 0x00] + Be16(40 + |p.payload|) + [0x17, 0xe1, 0x40, 0x00, 0x80, 0x06];
    var after := MY_IP + p.peer.ip;
    FieldSum(before, checksum, after);
    hide WordSum, Be16;
    assert IpHeader(p, checksum) == before + Be16(checksum) + after;
    assert IpHeader(p, 0) == before + Be16(0) + after;
    FirstWord(IpHeader(p, 0));
  }

  lemma FirstWord(s: seq<byte>)
    requires |s| >= 2 && s[0] > 0
    ensures WordSum(s) > 0
  {
  }

  lemma SegmentFieldSum(p: Packet, checksum: u16)
    requires PacketOk(p)
    ensures WordSum(Segment(p, checksum)) == WordSum(Segment(p, 0)) + checksum
  {
    var before := [0x00, 0x50] + Be16(p.peer.port) + Be32(p.seqNum) + Be32(p.ackNum)
                  + [p.headerLen / 4 * 16, p.flags, 0xfa, 0xf0];
    var after := [0x00, 0x00] + p.payload;
    FieldSum(before, checksum, after);
    hide WordSum, Be16, Be32;
    assert Segment(p, checksum) == before + Be16(checksum) + after;
    assert Segment(p, 0) == before + Be16(0) + after;
  }

  /** The byte after an odd segment enters the sum as a low-order byte. */
  lemma {:induction false} OddTail(s: seq<byte>, stale: byte)
    requires |s| % 2 == 1
    ensures WordSum(s + [stale]) == WordSum(s) + stale
  {
    if |s| == 1 {
      TwoBytes(s[0], stale);
      assert s + [stale] == [s[0], stale];
    } else {
      OddTail(s[2..], stale);
      assert (s + [stale])[2..] == s[2..] + [stale];
    }
  }

  lemma FrameParts(p: Packet, stale: byte)
    requires PacketOk(p)
    ensures var f := Frame(p, stale);
            && f[14..34] == IpHeader(p, IpSum(p)) && f[34..] == Segment(p, TcpSum(p, stale))
            && f[26..30] == MY_IP && f[30..34] == p.peer.ip && f[23] == 0x06
  {
    hide IpSum, TcpSum, Segment, Be16;
  }

  /** The number that two bytes spell in network order. */
  function Net16(hi: byte, lo: byte): u16 {
    hi as int * 0x100 + lo
  }

  function Net32(a: byte, b: byte, c: byte, d: byte): u32 {
    Net16(a, b) as int * 0x1_0000 + Net16(c, d)
  }

  lemma IpHeaderFields(p: Packet, checksum: u16)
    requires PacketOk(p)
    ensures var h := IpHeader(p, checksum);
            && h[0] == 0x45 && Net16(h[2], h[3]) == 40 + |p.payload| && h[8] == 128 && h[9] == 6
            && h[12..16] == [169, 254, 229, 14] && h[16..20] == p.peer.ip
  {
    var h := IpHeader(p, checksum);
    assert h[2..4] == Be16(40 + |p.payload|);
    assert h[2] == h[2..4][0] && h[3] == h[2..4][1];
  }

  lemma SegmentPieces(p: Packet, checksum: u16)
    requires PacketOk(p)
    ensures var g := Segment(p, checksum);
            && g[0] == 0 && g[1] == 80 && g[2..4] == Be16(p.peer.port)
            && g[4..8] == Be32(p.seqNum) && g[8..12] == Be32(p.ackNum)
            && g[12] == p.headerLen / 4 * 16 && g[13] == p.flags && g[14] == 0xfa && g[15] == 0xf0
            && g[18] == 0 && g[19] == 0 && g[20..] == p.payload
  {
    hide Be16, Be32;
  }

  lemma SegmentFields(p: Packet, checksum: u16)
    requires PacketOk(p)
    ensures var g := Segment(p, checksum);
            && Net16(g[0], g[1]) == 80 && Net16(g[2], g[3]) == p.peer.port
            && Net32(g[4], g[5], g[6], g[7]) == p.seqNum && Net32(g[8], g[9], g[10], g[11]) == p.ackNum
            && g[12] / 16 * 4 == p.headerLen && g[13] == p.flags && Net16(g[14], g[15]) == 0xfaf0
            && g[18] == 0 && g[19] == 0 && g[20..] == p.payload
  {
    var g := Segment(p, checksum);
    SegmentPieces(p, checksum);
    assert (p.headerLen == 20 || p.headerLen == 32) && Net16(0, 80) == 80 && Net16(0xfa, 0xf0) == 0xfaf0;
    hide Segment, Be16, Be32, Net16, Net32, PacketOk;
    OffsetReads(p.headerLen);
    Be16Reads(p.peer.port);
    var port := g[2..4];
    assert g[2] == port[0] && g[3] == port[1];
    NumberAt(g, 4, p.seqNum);
    NumberAt(g, 8, p.ackNum);
  }

  lemma OffsetReads(headerLen: nat)
    requires headerLen == 20 || headerLen == 32
    ensures headerLen / 4 * 16 / 16 * 4 == headerLen
  {
  }

  lemma NumberAt(g: seq<byte>, i: nat, x: u32)
    requires i + 4 <= |g| && g[i..i + 4] == Be32(x)
    ensures Net32(g[i], g[i + 1], g[i + 2], g[i + 3]) == x
  {
    Be32Reads(x);
    hide Be32, Net32;
    var s := g[i..i + 4];
    assert g[i] == s[0] && g[i + 1] == s[1] && g[i + 2] == s[2] && g[i + 3] == s[3];
  }

  /** The fields by their places in the Ethernet frame, the IPv4 header of twenty
      bytes from 14 (section 3.1 of RFC 791), and the TCP header from 34
      (section 3.1 of RFC 9293). */
  lemma FrameFields(p: Packet, stale: byte)
    requires PacketOk(p)
    ensures var f := Frame(p, stale);
            && |f| == 54 + |p.payload|
            && f[0..6] == p.peer.mac && f[6..12] == [0x60, 0xe3, 0x27, 0x04, 0xd5, 0xe3] && f[12] == 0x08 && f[13] == 0x00
            && f[14] == 0x45 && Net16(f[16], f[17]) == |f| - 14 && f[22] == 128 && f[23] == 6
            && f[26..30] == [169, 254, 229, 14] && f[30..34] == p.peer.ip
            && Net16(f[34], f[35]) == 80 && Net16(f[36], f[37]) == p.peer.port
            && Net32(f[38], f[39], f[40], f[41]) == p.seqNum && Net32(f[42], f[43], f[44], f[45]) == p.ackNum
            && f[46] / 16 * 4 == p.headerLen && f[47] == p.flags && Net16(f[48], f[49]) == 0xfaf0
            && f[52] == 0 && f[53] == 0 && f[54..] == p.payload
  {
    var f, h, g := Frame(p, stale), IpHeader(p, IpSum(p)), Segment(p, TcpSum(p, stale));
    IpHeaderFields(p, IpSum(p));
    SegmentFields(p, TcpSum(p, stale));
    FrameStart(p, stale);
    hide Frame, IpHeader, Segment, IpSum, TcpSum, Net16, Net32;
    assert forall i :: 0 <= i < 20 ==> f[14 + i] == h[i];
    assert forall i :: 0 <= i < |g| ==> f[34 + i] == g[i];
    assert f[26..30] == h[12..16] && f[30..34] == h[16..20] && f[54..] == g[20..];
  }

  lemma FrameStart(p: Packet, stale: byte)
    requires PacketOk(p)
    ensures var f, h, g := Frame(p, stale), IpHeader(p, IpSum(p)), Segment(p, TcpSum(p, stale));
            && f[0..6] == p.peer.mac && f[6..12] == [0x60, 0xe3, 0x27, 0x04, 0xd5, 0xe3] && f[12] == 0x08 && f[13] == 0x00
            && |f| == 34 + |g| && (forall i :: 0 <= i < 20 ==> f[14 + i] == h[i])
            && (forall i :: 0 <= i < |g| ==> f[34 + i] == g[i])
  {
    hide IpHeader, Segment, IpSum, TcpSum;
  }

  lemma Be16Reads(x: u16)
    ensures var s := Be16(x); Net16(s[0], s[1]) == x
  {
  }

  lemma Be32Reads(x: u32)
    ensures var s := Be32(x); Net32(s[0], s[1], s[2], s[3]) == x
  {
    var high, low := x / 0x1_0000, x % 0x1_0000;
    assert x / 0x100_0000 == high / 0x100 && x / 0x100 % 0x100 == low / 0x100 && x % 0x100 == low % 0x100;
  }

  /** The sender's sum over addresses, protocol and length is that of the bytes. */
  lemma PseudoSumIs(source: seq<byte>, dest: seq<byte>, len: u16)
    requires |source| == 4 && |dest| == 4
    ensures PseudoSum(source, dest, len) == WordSum(source + dest + [0, 6] + Be16(len))
  {
    WordSumAppend(source + dest + [0, 6], Be16(len));
    WordSumAppend(source + dest, [0, 6]);
    WordSumAppend(source, dest);
    TwoBytes(0, 6);
    Be16Sum(len);
    hide WordSum, Be16;
  }

  /** What a receiver sums is what the sender summed. */
  lemma SameSum(p: Packet, stale: byte)
    requires PacketOk(p)
    ensures var f := Frame(p, stale);
            WordSum(PseudoHeader(f) + f[34..])
            == PseudoSum(MY_IP, p.peer.ip, 20 + |p.payload|) + WordSum(Segment(p, TcpSum(p, stale)))
  {
    FrameParts(p, stale);
    var f := Frame(p, stale);
    hide Frame, WordSum, Segment, TcpSum, IpHeader, Be16;
    assert f[26..34] == MY_IP + p.peer.ip;
    PseudoSumIs(MY_IP, p.peer.ip, 20 + |p.payload|);
    WordSumAppend(PseudoHeader(f), f[34..]);
  }

  /** Every frame passes the receiver's IPv4 check; it passes the TCP check if
      and only if its payload is even or the byte left behind it is zero. */
  lemma FrameVerifies(p: Packet, stale: byte)
    requires PacketOk(p)
    ensures IpAccepts(Frame(p, stale))
    ensures TcpAccepts(Frame(p, stale)) <==> |p.payload| % 2 == 0 || stale == 0
  {
    hide Fold, WordSum, Segment, Be16, Be32, Frame, IpHeader;
    FrameParts(p, stale);
    IpFieldSum(p, IpSum(p));
    ComplementVerifies(WordSum(IpHeader(p, 0)), 0);
    SegmentFieldSum(p, TcpSum(p, stale));
    SameSum(p, stale);
    var sum := PseudoSum(MY_IP, p.peer.ip, 20 + |p.payload|) + WordSum(Segment(p, 0));
    if |p.payload| % 2 == 1 {
      OddTail(Segment(p, 0), stale);
      ComplementVerifies(sum, stale);
    } else {
      assert Segment(p, 0) + [] == Segment(p, 0);
      ComplementVerifies(sum, 0);
    }
  }
}

module TransmitBuffer {
  import opened Checksum
  import opened TcpFrame
  import opened Words

  class TxBuffer {
    const frame: array<byte>

    constructor ()
      ensures frame.Length == FRAME_LEN && fresh(frame)
      ensures forall i :: 0 <= i < FRAME_LEN ==> frame[i] == 0
    {
      frame := new byte[FRAME_LEN](_ => 0);
    }

    /** memmove to a field of the frame. */
    method Put(off: nat, bytes: seq<byte>)
      requires off + |bytes| <= frame.Length
      modifies frame
      ensures forall i :: off <= i < off + |bytes| ==> frame[i] == bytes[i - off]
      ensures forall i :: 0 <= i < frame.Length && !(off <= i < off + |bytes|) ==> frame[i] == old(frame[i])
    {
      var k := 0;
      while k < |bytes|
        invariant 0 <= k <= |bytes|
        invariant forall i :: off <= i < off + k ==> frame[i] == bytes[i - off]
        invariant forall i :: 0 <= i < frame.Length && !(off <= i < off + k) ==> frame[i] == old(frame[i])
      {
        frame[off + k] := bytes[k];
        k := k + 1;
      }
    }

    method PutEthernet(p: Packet)
      requires frame.Length == FRAME_LEN && PacketOk(p)
      modifies frame
      ensures frame[..14] == Ethernet(p)
      ensures forall i :: 14 <= i < frame.Length ==> frame[i] == old(frame[i])
    {
      Put(0, p.peer.mac);
      Put(6, MY_MAC);
      Put(12, [0x08, 0x00]);
    }

    /** All of the IPv4 header but its checksum is in place. */
    ghost predicate IpFields(p: Packet)
      requires frame.Length == FRAME_LEN && PacketOk(p)
      reads frame
    {
      && frame[14..16] == [0x45, 0x00] && frame[16..18] == Be16(40 + |p.payload|)
      && frame[18..24] == [0x17, 0xe1, 0x40, 0x00, 0x80, 0x06]
      && frame[26..30] == MY_IP && frame[30..34] == p.peer.ip
    }

    /** All of the segment but its checksum is in place. */
    ghost predicate TcpFields(p: Packet)
      requires frame.Length == FRAME_LEN && PacketOk(p)
      reads frame
    {
      && frame[34..36] == [0x00, 0x50] && frame[36..38] == Be16(p.peer.port)
      && frame[38..42] == Be32(p.seqNum) && frame[42..46] == Be32(p.ackNum)
      && frame[46..50] == [p.headerLen / 4 * 16, p.flags, 0xfa, 0xf0]
      && frame[52..54] == [0x00, 0x00] && frame[54..54 + |p.payload|] == p.payload
    }

    lemma IpHeaderInPlace(p: Packet, checksum: u16)
      requires frame.Length == FRAME_LEN && PacketOk(p)
      requires IpFields(p) && frame[24..26] == Be16(checksum)
      ensures frame[14..34] == IpHeader(p, checksum)
    {
      hide Be16;
      assert frame[14..34] ==
             frame[14..16] + frame[16..18] + frame[18..24] + frame[24..26] + frame[26..30] + frame[30..34];
    }

    lemma SegmentInPlace(p: Packet, checksum: u16)
      requires frame.Length == FRAME_LEN && PacketOk(p)
      requires TcpFields(p) && frame[50..52] == Be16(checksum)
      ensures frame[34..54 + |p.payload|] == Segment(p, checksum)
    {
      hide Be16, Be32;
      assert frame[34..54 + |p.payload|]
          == frame[34..36] + frame[36..38] + frame[38..42] + frame[42..46] + frame[46..50] + frame[50..52]
             + frame[52..54] + frame[54..54 + |p.payload|];
    }

    /** The IPv4 fields. The source address is copied with a length of six, so
        two bytes that follow it in memory spill into the destination field,
        which is filled in next. */
    method PutIpFields(p: Packet, spill: seq<byte>)
      requires frame.Length == FRAME_LEN && PacketOk(p) && |spill| == 2
      modifies frame
      ensures IpFields(p)
      ensures forall i :: 0 <= i < frame.Length && !(14 <= i < 34) ==> frame[i] == old(frame[i])
    {
      Put(14, [0x45, 0x00]);
      Put(20, [0x40, 0x00]);
      Put(18, [0x17, 0xe1]);
      Put(22, [0x80, 0x06]);
      Put(26, MY_IP + spill);
      Put(30, p.peer.ip);
      Put(16, Be16(40 + |p.payload|));
    }

    method PutTcpFields(p: Packet)
      requires frame.Length == FRAME_LEN && PacketOk(p)
      modifies frame
      ensures TcpFields(p)
      ensures forall i :: 0 <= i < frame.Length && !(34 <= i < 54 + |p.payload|) ==> frame[i] == old(frame[i])
    {
      Put(34, [0x00, 0x50]);
      Put(36, Be16(p.peer.port));
      Put(38, Be32(p.seqNum));
      Put(42, Be32(p.ackNum));
      Put(46, [p.headerLen / 4 * 16, p.flags]);
      Put(48, [0xfa, 0xf0]);
      Put(52, [0x00, 0x00]);
      Put(54, p.payload);
    }

    /** Stores a checksum the way the little-endian processor does. */
    method PutChecksum(off: nat, value: u16)
      requires off + 2 <= frame.Length
      modifies frame
      ensures frame[off..off + 2] == Be16(Swap(value))
      ensures forall i :: 0 <= i < frame.Length && !(off <= i < off + 2) ==> frame[i] == old(frame[i])
    {
      Put(off, [value % 0x100, value / 0x100]);
    }

    lemma SummedSlice(p: Packet, stale: byte)
      requires frame.Length == FRAME_LEN && PacketOk(p)
      requires frame[34..54 + |p.payload|] == Segment(p, 0)
      requires |p.payload| % 2 == 1 ==> stale == frame[54 + |p.payload|]
      ensures var len := 20 + |p.payload|;
              frame[34..34 + len + len % 2] == Segment(p, 0) + if |p.payload| % 2 == 1 then [stale] else []
    {
      hide Segment;
    }

    method FinishIp(p: Packet)
      requires frame.Length == FRAME_LEN && PacketOk(p) && IpFields(p)
      modifies frame
      ensures frame[14..34] == IpHeader(p, IpSum(p))
      ensures forall i :: 0 <= i < frame.Length && !(24 <= i < 26) ==> frame[i] == old(frame[i])
    {
      PutChecksum(24, 0);
      IpHeaderInPlace(p, 0);
      var sum := Ipv4Checksum(frame, 14, 20);
      PutChecksum(24, sum);
      SwapTwice(IpSum(p));
      IpHeaderInPlace(p, IpSum(p));
    }

    method FinishTcp(p: Packet, ghost stale: byte)
      requires frame.Length == FRAME_LEN && PacketOk(p) && TcpFields(p)
      requires |p.payload| % 2 == 1 ==> stale == frame[54 + |p.payload|]
      modifies frame
      ensures frame[34..54 + |p.payload|] == Segment(p, TcpSum(p, stale))
      ensures forall i :: 0 <= i < frame.Length && !(50 <= i < 52) ==> frame[i] == old(frame[i])
    {
      hide Fold, WordSum, PseudoSum, Segment, Be16, Be32, Swap;
      PutChecksum(50, 0);
      SwapTwice(0);
      SegmentInPlace(p, 0);
      SummedSlice(p, stale);
      var sum := TcpChecksum(MY_IP, p.peer.ip, frame, 34, 20 + |p.payload|);
      PutChecksum(50, sum);
      SwapTwice(TcpSum(p, stale));
      SegmentInPlace(p, TcpSum(p, stale));
    }

    method PutFields(p: Packet, spill: seq<byte>)
      requires frame.Length == FRAME_LEN && PacketOk(p) && |spill| == 2
      modifies frame
      ensures frame[..14] == Ethernet(p) && IpFields(p) && TcpFields(p)
      ensures forall i :: 54 + |p.payload| <= i < frame.Length ==> frame[i] == old(frame[i])
    {
      hide Be16, Be32, Ethernet;
      PutEthernet(p);
      PutIpFields(p, spill);
      PutTcpFields(p);
    }

    method FinishBoth(p: Packet, ghost stale: byte)
      requires frame.Length == FRAME_LEN && PacketOk(p) && IpFields(p) && TcpFields(p)
      requires |p.payload| % 2 == 1 ==> stale == frame[54 + |p.payload|]
      modifies frame
      ensures frame[14..34] == IpHeader(p, IpSum(p)) && frame[34..54 + |p.payload|] == Segment(p, TcpSum(p, stale))
      ensures frame[..14] == old(frame[..14])
      ensures forall i :: 54 + |p.payload| <= i < frame.Length ==> frame[i] == old(frame[i])
    {
      hide Be16, Be32, IpHeader, Segment, IpSum, TcpSum;
      FinishIp(p);
      FinishTcp(p, stale);
    }

    lemma FrameInPlace(p: Packet, stale: byte)
      requires frame.Length == FRAME_LEN && PacketOk(p) && frame[..14] == Ethernet(p)
      requires frame[14..34] == IpHeader(p, IpSum(p)) && frame[34..54 + |p.payload|] == Segment(p, TcpSum(p, stale))
      ensures frame[..54 + |p.payload|] == Frame(p, stale)
    {
      hide Ethernet, IpHeader, Segment, IpSum, TcpSum;
      assert frame[..54 + |p.payload|] == frame[..14] + frame[14..34] + frame[34..54 + |p.payload|];
    }

    /** create_tcp_pkt, given the numbers it takes from the connection record:
        every byte of the frame is rewritten and nothing beyond it. */
    method CreateTcpPkt(p: Packet, spill: seq<byte>, ghost stale: byte)
      requires frame.Length == FRAME_LEN && PacketOk(p) && |spill| == 2
      requires |p.payload| % 2 == 1 ==> stale == frame[54 + |p.payload|]
      modifies frame
      ensures frame[..54 + |p.payload|] == Frame(p, stale)
      ensures frame[54 + |p.payload|..] == old(frame[54 + |p.payload|..])
    {
      hide IpFields, TcpFields, IpHeader, Segment, Ethernet, IpSum, TcpSum, Frame;
      PutFields(p, spill);
      FinishBoth(p, stale);
      FrameInPlace(p, stale);
    }
  }

  lemma SwapTwice(x: u16)
    ensures Swap(Swap(x)) == x && Swap(0) == 0
  {
  }
}
