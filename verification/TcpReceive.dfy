/** The one buffer into which every frame is received, and what the receive
    handler reads from it. */
module TcpReceive {
  import opened Words
  import TcpFrame

  const RX_LEN := 1518
  const PAYLOAD_LEN := 64

  /** rx_frame: two bytes of alignment, the Ethernet header, and the rest. */
  type Buffer = b: seq<byte> | |b| == RX_LEN witness seq(RX_LEN, _ => 0)
  type Incoming = f: seq<byte> | |f| <= RX_LEN

  function Blank(): Buffer {
    seq(RX_LEN, _ => 0)
  }

  /** A segment as the handler reads it. `body` is what follows the fixed TCP
      header in the buffer, whatever the segment's real length. */
  datatype Segment = Segment(
    toMe: bool, srcMac: seq<byte>, srcIp: seq<byte>, srcPort: u16, dstPort: u16,
    seqNum: u32, ackNum: u32, fin: bool, syn: bool, ack: bool, window: u16,
    totalLen: u16, ihl: nat, dataOffset: nat, body: seq<byte>)

  type Arrival = s: Segment |
    |s.srcMac| == 6 && |s.srcIp| == 4 && |s.body| == PAYLOAD_LEN && s.ihl < 16 && s.dataOffset < 16
    witness Segment(false, [0, 0, 0, 0, 0, 0], [0, 0, 0, 0], 0, 0, 0, 0, false, false, false, 0, 0, 0, 0,
                    seq(PAYLOAD_LEN, _ => 0))

  /** A frame overwrites the front of the buffer; nothing clears the rest. */
  function Landed(rx: Buffer, frame: Incoming): Buffer {
    frame + rx[|frame|..]
  }

  /** Where the fixed TCP header begins and ends. */
  function TcpStart(b: seq<byte>): nat
    requires |b| > 16
  {
    16 + b[16] % 16 * 4
  }

  function BodyStart(b: seq<byte>): nat
    requires |b| > 16
  {
    TcpStart(b) + 20
  }

  function Field16(b: Buffer, i: nat): u16
    requires i + 2 <= RX_LEN
  {
    b[i] as int * 0x100 + b[i + 1]
  }

  function Field32(b: Buffer, i: nat): u32
    requires i + 4 <= RX_LEN
  {
    b[i] as int * 0x100_0000 + b[i + 1] as int * 0x1_0000 + b[i + 2] as int * 0x100 + b[i + 3]
  }

  predicate IsTcp(b: Buffer) {
    b[14] == 0x08 && b[15] == 0x00 && b[25] == 0x06
  }

  function View(b: Buffer): Arrival {
    ViewAt(b, TcpStart(b))
  }

  /** The segment whose TCP header begins at `t`. */
  function ViewAt(b: Buffer, t: nat): Arrival
    requires t + 20 + PAYLOAD_LEN <= RX_LEN
  {
    Segment(b[2..8] == TcpFrame.MY_MAC, b[8..14], b[28..32], Field16(b, t), Field16(b, t + 2),
            Field32(b, t + 4), Field32(b, t + 8), b[t + 13] % 2 == 1, b[t + 13] / 2 % 2 == 1, b[t + 13] / 16 % 2 == 1,
            b[t + 14] + b[t + 15] as int * 0x100, Field16(b, 18), b[16] % 16, b[t + 12] / 16,
            b[t + 20..t + 20 + PAYLOAD_LEN])
  }

  /** Reading undoes building: the handler finds in a built frame the packet it
      was built from. */
  lemma BuiltFrameReads(p: TcpFrame.Packet, stale: byte, pad: seq<byte>, rx: Buffer)
    requires TcpFrame.PacketOk(p) && |pad| == 2 && 56 + |p.payload| <= RX_LEN
    ensures var b := Landed(rx, pad + TcpFrame.Frame(p, stale));
            var s := View(b);
            && IsTcp(b) && s.toMe == (p.peer.mac == TcpFrame.MY_MAC)
            && s.srcMac == TcpFrame.MY_MAC && s.srcIp == TcpFrame.MY_IP && s.srcPort == 80 && s.dstPort == p.peer.port
            && s.seqNum == p.seqNum && s.ackNum == p.ackNum
            && s.fin == (p.flags % 2 == 1) && s.syn == (p.flags / 2 % 2 == 1) && s.ack == (p.flags / 16 % 2 == 1)
            && s.totalLen == 40 + |p.payload| && s.ihl == 5 && 4 * s.dataOffset == p.headerLen
            && forall i :: 0 <= i < PAYLOAD_LEN && i < |p.payload| ==> s.body[i] == p.payload[i]
  {
    BuiltBytes(p, stale, pad, rx);
    PlainView(Landed(rx, pad + TcpFrame.Frame(p, stale)));
    hide View, Landed, TcpFrame.Frame, TcpFrame.Net16, TcpFrame.Net32;
  }

  lemma BuiltBytes(p: TcpFrame.Packet, stale: byte, pad: seq<byte>, rx: Buffer)
    requires TcpFrame.PacketOk(p) && |pad| == 2 && 56 + |p.payload| <= RX_LEN
    ensures var b := Landed(rx, pad + TcpFrame.Frame(p, stale));
            && b[2..8] == p.peer.mac && b[8..14] == TcpFrame.MY_MAC && b[28..32] == TcpFrame.MY_IP
            && b[14] == 0x08 && b[15] == 0x00 && b[16] == 0x45 && b[25] == 6
            && TcpFrame.Net16(b[18], b[19]) == 40 + |p.payload|
            && TcpFrame.Net16(b[36], b[37]) == 80 && TcpFrame.Net16(b[38], b[39]) == p.peer.port
            && TcpFrame.Net32(b[40], b[41], b[42], b[43]) == p.seqNum
            && TcpFrame.Net32(b[44], b[45], b[46], b[47]) == p.ackNum
            && b[48] / 16 * 4 == p.headerLen && b[49] == p.flags
            && forall i :: 0 <= i < |p.payload| ==> b[56 + i] == p.payload[i]
  {
    TcpFrame.FrameFields(p, stale);
    var f := TcpFrame.Frame(p, stale);
    hide TcpFrame.Frame, TcpFrame.Net16, TcpFrame.Net32;
    LandedFrame(f, pad, rx);
    var b := Landed(rx, pad + f);
    hide Landed;
    assert forall i :: 0 <= i < |p.payload| ==> b[56 + i] == f[54 + i] == f[54..][i];
  }

  lemma LandedFrame(f: seq<byte>, pad: seq<byte>, rx: Buffer)
    requires |f| >= 54 && |pad| == 2 && |f| + 2 <= RX_LEN
    ensures var b := Landed(rx, pad + f);
            && (forall i :: 2 <= i < |f| + 2 ==> b[i] == f[i - 2])
            && b[2..8] == f[0..6] && b[8..14] == f[6..12] && b[28..32] == f[26..30]
  {
    var b := Landed(rx, pad + f);
    assert forall i :: 2 <= i < |f| + 2 ==> b[i] == (pad + f)[i] == f[i - 2];
    hide Landed;
    Window(b, f, 0, 6);
    Window(b, f, 6, 12);
    Window(b, f, 26, 30);
  }

  lemma Window(b: seq<byte>, f: seq<byte>, i: nat, j: nat)
    requires i <= j <= |f| && |f| + 2 <= |b| && forall k :: 2 <= k < |f| + 2 ==> b[k] == f[k - 2]
    ensures b[i + 2..j + 2] == f[i..j]
  {
    var x, y := b[i + 2..j + 2], f[i..j];
    forall k | 0 <= k < j - i ensures x[k] == y[k] {
      assert x[k] == b[i + 2 + k] && y[k] == f[i + k];
    }
  }

  /** What is read when the IPv4 header has no options. */
  lemma PlainView(b: Buffer)
    requires b[16] % 16 == 5
    ensures var s := View(b);
            && s.toMe == (b[2..8] == TcpFrame.MY_MAC) && s.srcMac == b[8..14] && s.srcIp == b[28..32]
            && s.srcPort == TcpFrame.Net16(b[36], b[37]) && s.dstPort == TcpFrame.Net16(b[38], b[39])
            && s.seqNum == TcpFrame.Net32(b[40], b[41], b[42], b[43])
            && s.ackNum == TcpFrame.Net32(b[44], b[45], b[46], b[47])
            && s.dataOffset == b[48] / 16 && s.totalLen == TcpFrame.Net16(b[18], b[19]) && s.ihl == 5
            && s.fin == (b[49] % 2 == 1) && s.syn == (b[49] / 2 % 2 == 1) && s.ack == (b[49] / 16 % 2 == 1)
            && forall i :: 0 <= i < PAYLOAD_LEN ==> s.body[i] == b[56 + i]
  {
    assert View(b) == ViewAt(b, 36);
    hide View;
    FieldsAre(b, 36);
    FieldsAre(b, 38);
    FieldsAre(b, 40);
    FieldsAre(b, 44);
    FieldsAre(b, 18);
    hide Field16, Field32, TcpFrame.Net16, TcpFrame.Net32, TcpStart;
  }

  lemma FieldsAre(b: Buffer, i: nat)
    requires i + 4 <= RX_LEN
    ensures Field16(b, i) == TcpFrame.Net16(b[i], b[i + 1])
    ensures Field32(b, i) == TcpFrame.Net32(b[i], b[i + 1], b[i + 2], b[i + 3])
  {
  }

  // ------------------------------------------------------------ address resolution

  /** An ARP frame that asks for this server's address. */
  predicate AsksForMe(b: Buffer) {
    b[14] == 0x08 && b[15] == 0x06 && b[40..44] == TcpFrame.MY_IP
  }

  /** The reply of RFC 826. */
  function ArpReply(b: Buffer): (reply: seq<byte>)
    ensures |reply| == 42
  {
    b[24..30] + TcpFrame.MY_MAC + [0x08, 0x06, 0x00, 0x01, 0x08, 0x00, 0x06, 0x04, 0x00, 0x02]
    + TcpFrame.MY_MAC + TcpFrame.MY_IP + b[24..30] + b[30..34]
  }

  /** The reply is addressed to whoever asked, repeats the asker's addresses as
      the target's and gives this server's as the sender's. */
  lemma ArpReplyFields(b: Buffer)
    ensures var r := ArpReply(b);
            && r[0..6] == b[24..30] && r[6..12] == TcpFrame.MY_MAC && r[12..14] == [0x08, 0x06]
            && r[14..22] == [0, 1, 8, 0, 6, 4, 0, 2]
            && r[22..28] == TcpFrame.MY_MAC && r[28..32] == TcpFrame.MY_IP
            && r[32..38] == b[24..30] && r[38..42] == b[30..34]
  {
    var mac, ip, me := b[24..30], b[30..34], TcpFrame.MY_MAC;
    var head: seq<byte> := [0x08, 0x06, 0x00, 0x01, 0x08, 0x00, 0x06, 0x04, 0x00, 0x02];
    var front := mac + me + head;
    var r := ArpReply(b);
    assert r == front + (me + TcpFrame.MY_IP) + (mac + ip);
    assert |front| == 22 && |me + TcpFrame.MY_IP| == 10;
    hide ArpReply;
    assert r[..22] == front && r[22..32] == me + TcpFrame.MY_IP && r[32..] == mac + ip;
    assert r[0..6] == r[..22][0..6] && r[6..12] == r[..22][6..12] && r[12..22] == r[..22][12..22] == head;
    assert r[12..14] == head[..2] && r[14..22] == head[2..];
    assert r[22..28] == r[22..32][..6] && r[28..32] == r[22..32][6..];
    assert r[32..38] == r[32..][..6] && r[38..42] == r[32..][6..];
  }

  // ------------------------------------------------------------ what a frame brings

  /** The frame is long enough for the headers and `n` bytes of what follows. */
  predicate Brings(frame: Incoming, n: nat) {
    |frame| > 16 && |frame| >= BodyStart(frame) + n
  }

  /** Of a frame that brings its headers, only the end of the body can come from
      the buffer's earlier contents. */
  lemma HeaderArrives(a: Buffer, b: Buffer, frame: Incoming)
    requires Brings(frame, 0)
    ensures IsTcp(Landed(a, frame)) == IsTcp(Landed(b, frame))
    ensures var s, t := View(Landed(a, frame)), View(Landed(b, frame)); s.(body := t.body) == t
  {
    var x, y := Landed(a, frame), Landed(b, frame);
    assert forall i :: 0 <= i < |frame| ==> x[i] == frame[i] == y[i];
    assert x[2..8] == y[2..8] && x[8..14] == y[8..14] && x[28..32] == y[28..32];
  }

  lemma BodyArrives(a: Buffer, frame: Incoming)
    requires Brings(frame, 0)
    ensures var start, s := BodyStart(frame), View(Landed(a, frame));
            && start + PAYLOAD_LEN <= RX_LEN
            && forall i :: 0 <= i < PAYLOAD_LEN ==>
                 s.body[i] == if start + i < |frame| then frame[start + i] else a[start + i]
  {
  }

  /** Nothing of a frame that brings all that is read depends on earlier frames. */
  lemma WholeArrives(a: Buffer, b: Buffer, frame: Incoming)
    requires Brings(frame, PAYLOAD_LEN)
    ensures View(Landed(a, frame)) == View(Landed(b, frame))
  {
    HeaderArrives(a, b, frame);
    BodyArrives(a, frame);
    BodyArrives(b, frame);
    hide View, Landed;
    assert View(Landed(a, frame)).body == View(Landed(b, frame)).body;
  }
}
