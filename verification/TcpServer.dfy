/** The connection record of the hand-written TCP server, updated in place by the
    two interrupt handlers. */
module TcpServer {
  import opened Words
  import opened TcpFrame
  import opened TcpReceive
  import opened TransmitBuffer
  import opened TcpModel

  class Connection {
    // struct tcp_conn
    var state: State
    var peer: Peer
    var seqNum: u32
    var lastAcked: u32
    var lastSendedLen: u16
    var window: u16
    var recPayloadLen: u16
    var acked: bool
    var commandSent: bool
    var gotHtmlReq: bool
    var payload: seq<byte>

    var secs: nat           // the static counter of timeout_isr
    var setTimerZero: bool  // the global that the receive handler sets
    var timerZero: bool     // the field that timeout_isr tests
    const rx: array<byte>
    const tx: TxBuffer
    const page: seq<byte>
    var wire: seq<seq<byte>>    // every frame handed to the transmit DMA
    ghost var sent: seq<Packet>

    constructor (page: seq<byte>, peer: Peer, payload: seq<byte>, secs: nat)
      requires |page| == HTML_PAGE_LEN && PeerOk(peer) && |payload| == PAYLOAD_LEN
      ensures Valid() && fresh(rx) && fresh(tx) && fresh(tx.frame) && Initial(Model()) && this.page == page
    {
      state := Listen;
      this.peer, this.payload, this.secs, this.page := peer, payload, secs, page;
      seqNum, lastAcked, lastSendedLen, window, recPayloadLen := 0, 0, 0, 0, 0;
      acked, commandSent, gotHtmlReq, setTimerZero, timerZero := false, false, false, false, false;
      rx := new byte[RX_LEN](_ => 0);
      tx := new TxBuffer();
      wire, sent := [], [];
    }

    ghost function Model(): Server
      reads this
    {
      Server(Conn(state, peer, seqNum, lastAcked, lastSendedLen, window, recPayloadLen,
                  acked, commandSent, gotHtmlReq, payload), secs, sent)
    }

    /** The record together with the receive buffer. */
    ghost function Whole(): Machine
      requires rx.Length == RX_LEN
      reads this, rx
    {
      Machine(Model(), rx[..])
    }

    /** Every frame that left is the one its packet describes, checksums
        included; this rests on the byte after the page, which nothing writes. */
    ghost predicate Wired()
      reads `wire, `sent, tx.frame
    {
      && tx.frame.Length == FRAME_LEN && tx.frame[54 + HTML_PAGE_LEN] == 0
      && |wire| == |sent|
      && forall i :: 0 <= i < |sent| ==> PacketOk(sent[i]) && wire[i] == Frame(sent[i], 0)
    }

    /** The timer's own restart flag is clear at the start, and nobody sets it. */
    ghost predicate Valid()
      reads `peer, `payload, `wire, `sent, `timerZero, tx.frame
    {
      && |page| == HTML_PAGE_LEN && PeerOk(peer) && |payload| == PAYLOAD_LEN && !timerZero
      && rx.Length == RX_LEN && rx != tx.frame && Wired()
    }

    /** A receiver accepts every frame of every run. */
    lemma EveryFrameVerifies(i: nat)
      requires Valid() && i < |wire|
      ensures 54 <= |wire[i]| <= FRAME_LEN && IpAccepts(wire[i]) && TcpAccepts(wire[i])
    {
      FrameVerifies(sent[i], 0);
    }

    /** create_tcp_pkt. */
    method CreateTcpPkt(flags: byte, data: seq<byte>, headerLen: nat) returns (ghost p: Packet)
      requires Valid() && (headerLen == 20 || headerLen == 32)
      requires |data| <= HTML_PAGE_LEN
      modifies `seqNum, tx.frame
      ensures Valid() && Model().conn == Bump(old(Model().conn))
      ensures p == Packet(peer, flags, headerLen, lastAcked, seqNum, data) && PacketOk(p)
      ensures tx.frame[..54 + |data|] == Frame(p, if |data| % 2 == 1 then old(tx.frame[54 + |data|]) else 0)
    {
      hide Frame;
      seqNum := (seqNum + recPayloadLen + (if recPayloadLen == 0 then 1 else 0)) % WRAP;
      var packet := Packet(peer, flags, headerLen, lastAcked, seqNum, data);
      p := packet;
      var a: byte, b: byte := *, *;  // whatever follows my_ip in memory
      tx.CreateTcpPkt(packet, [a, b], if |data| % 2 == 1 then tx.frame[54 + |data|] else 0);
      ghost var k := HTML_PAGE_LEN - |data|;
      assert tx.frame[54 + |data|..][k] == old(tx.frame[54 + |data|..])[k];
      assert tx.frame[54 + HTML_PAGE_LEN] == old(tx.frame[54 + HTML_PAGE_LEN]) == 0;
    }

    /** send_packet. */
    method SendPacket(len: nat, ghost p: Packet)
      requires Valid() && PacketOk(p) && len == 54 + |p.payload| && tx.frame[..len] == Frame(p, 0)
      modifies `wire, `sent
      ensures Valid() && Model() == old(Model()).(sent := old(sent) + [p])
      ensures wire == old(wire) + [tx.frame[..len]]
    {
      hide Frame;
      wire := wire + [tx.frame[..len]];
      sent := sent + [p];
    }

    /** create_tcp_pkt followed by send_packet; the caller's assignment of the
        sent length, which neither of them reads, comes after. */
    method Transmit(flags: byte, data: seq<byte>, headerLen: nat)
      requires Valid() && (headerLen == 20 || headerLen == 32)
      requires |data| == HTML_PAGE_LEN || (|data| % 2 == 0 && |data| <= PAYLOAD_LEN)
      modifies `seqNum, `wire, `sent, tx.frame
      ensures Valid() && Model() == Send(old(Model()), flags, headerLen, data)
    {
      hide Frame;
      ghost var p := CreateTcpPkt(flags, data, headerLen);
      SendPacket(54 + |data|, p);
    }

    /** ack_check. */
    method CheckAck(s: Arrival)
      requires Valid()
      modifies `lastAcked, `acked
      ensures Valid() && Model().conn == AckCheck(old(Model().conn), s)
    {
      hide Wired;
      if s.ack {
        if s.ackNum == (lastAcked + lastSendedLen + 1) % WRAP {
          if lastSendedLen != 0 {
            lastAcked := (lastAcked + (lastSendedLen + 1)) % WRAP;
          }
          lastAcked := (lastAcked + (if commandSent then 1 else 0)) % WRAP;
          acked := true;
        } else {
          acked := false;
        }
      } else {
        acked := false;
      }
    }

    /** The record takes the peer's addresses and numbers from its SYN. */
    method LatchPeer(s: Arrival)
      requires Valid()
      modifies `peer, `seqNum, `recPayloadLen, `window, `lastAcked, `payload
      ensures Valid() && Model().conn == Latch(old(Model()).conn, s)
    {
      hide Wired, PayloadLen;
      peer := Peer(s.srcMac, s.srcIp, s.srcPort);
      seqNum := s.seqNum;
      recPayloadLen := PayloadLen(s);
      window := s.window;
      lastAcked := ISS;
      payload := s.body[..24] + payload[24..];
    }

    method OnListen(s: Arrival)
      requires Valid()
      modifies `state, `peer, `seqNum, `lastAcked, `lastSendedLen, `window, `recPayloadLen, `commandSent, `payload,
               `wire, `sent, tx.frame
      ensures Valid() && Model() == ReceiveListen(old(Model()), s)
    {
      hide Wired, Accept;
      commandSent := false;
      if s.syn {
        AcceptSyn(s);
      }
    }

    method AcceptSyn(s: Arrival)
      requires Valid()
      modifies `state, `peer, `seqNum, `lastAcked, `lastSendedLen, `window, `recPayloadLen, `payload,
               `wire, `sent, tx.frame
      ensures Valid() && Model() == Accept(old(Model()), s)
    {
      hide Wired, Latch, Send;
      LatchPeer(s);
      Transmit(SYN_ACK, payload[..12], 32);
      lastSendedLen := 0;
      state := SynReceived;
    }

    method OnSynReceived(s: Arrival)
      requires Valid()
      modifies `state, `lastAcked, `acked, `setTimerZero
      ensures Valid() && Model() == ReceiveSynReceived(old(Model()), s)
    {
      hide Wired, AckCheck;
      if s.ack {
        if s.srcIp == peer.ip {
          if peer.port == s.srcPort {
            CheckAck(s);
            if acked {
              state := Established;
              setTimerZero := true;
            }
          }
        }
      }
    }

    method OnEstablished(s: Arrival)
      requires Valid()
      modifies `state, `seqNum, `lastAcked, `lastSendedLen, `window, `recPayloadLen, `acked, `gotHtmlReq, `payload,
               `setTimerZero, `wire, `sent, tx.frame
      ensures Valid() && Model() == ReceiveEstablished(old(Model()), s, page)
    {
      hide Wired, AckCheck, PayloadLen, Answer;
      if s.ack && s.srcIp == peer.ip && peer.port == s.srcPort {
        CheckAck(s);
        seqNum := s.seqNum;
        recPayloadLen := PayloadLen(s);
        if acked {
          setTimerZero := true;
          AnswerSegment(s);
        }
      }
    }

    /** What an accepted segment is answered with. */
    method AnswerSegment(s: Arrival)
      requires Valid()
      modifies `state, `seqNum, `lastAcked, `lastSendedLen, `window, `gotHtmlReq, `payload, `wire, `sent, tx.frame
      ensures Valid() && Model() == Answer(old(Model()), s, page)
    {
      hide Wired, AnswerPage, AnswerFin, AnswerAck;
      if recPayloadLen > 1 && s.body[..3] == [0x47, 0x45, 0x54] {
        SendPage(s);
      } else if s.fin {
        SendFin();
      } else {
        SendAck();
      }
    }

    method SendPage(s: Arrival)
      requires Valid()
      modifies `state, `seqNum, `lastSendedLen, `window, `gotHtmlReq, `payload, `wire, `sent, tx.frame
      ensures Valid() && Model() == AnswerPage(old(Model()), s, page)
    {
      hide Wired, Send;
      window := s.window;
      Transmit(FIN_ACK, page, 20);
      AwaitFin(s);
    }

    method AwaitFin(s: Arrival)
      requires Valid()
      modifies `state, `lastSendedLen, `gotHtmlReq, `payload
      ensures Valid()
      ensures Model() == old(Model()).(conn := old(Model().conn).(lastSendedLen := HTML_PAGE_LEN, state := FinWait,
                                                                   payload := s.body, gotHtmlReq := true))
    {
      hide Wired;
      lastSendedLen := HTML_PAGE_LEN;
      state := FinWait;
      payload := s.body;
      gotHtmlReq := true;
    }

    method SendFin()
      requires Valid()
      modifies `state, `seqNum, `lastAcked, `wire, `sent, tx.frame
      ensures Valid() && Model() == AnswerFin(old(Model()))
    {
      hide Wired, Send;
      lastAcked := (lastAcked + 1) % WRAP;
      Transmit(FIN_ACK, [], 20);
      state := LastAck;
    }

    method SendAck()
      requires Valid()
      modifies `seqNum, `lastSendedLen, `wire, `sent, tx.frame
      ensures Valid() && Model() == AnswerAck(old(Model()))
    {
      hide Wired, Send;
      Transmit(ACK, [], 20);
      lastSendedLen := 0;
    }

    method OnFinWait(s: Arrival)
      requires Valid()
      modifies `state, `seqNum, `lastAcked, `lastSendedLen, `recPayloadLen, `acked, `wire, `sent, tx.frame
      ensures Valid() && Model() == ReceiveFinWait(old(Model()), s)
    {
      hide Wired, PayloadLen, AckCheck, AnswerAck;
      if s.ack && s.fin && s.srcIp == peer.ip && peer.port == s.srcPort {
        seqNum := s.seqNum;
        recPayloadLen := PayloadLen(s);
        CheckAck(s);
        if acked {
          SendAck();
          state := Listen;
        }
      }
    }

    method OnLastAck(s: Arrival)
      requires Valid()
      modifies `state, `seqNum, `lastAcked, `recPayloadLen, `acked
      ensures Valid() && Model() == ReceiveLastAck(old(Model()), s)
    {
      hide Wired, PayloadLen, AckCheck;
      if s.ack && s.srcIp == peer.ip && peer.port == s.srcPort {
        seqNum := s.seqNum;
        recPayloadLen := PayloadLen(s);
        CheckAck(s);
        if acked {
          state := Listen;
        }
      }
    }

    /** rx_ethernet_isr on a frame that carries TCP. */
    method OnTcp(s: Arrival)
      requires Valid()
      modifies this, tx.frame
      ensures Valid() && Model() == OnReceive(old(Model()), s, page)
    {
      hide Wired, ReceiveListen, ReceiveSynReceived, ReceiveEstablished, ReceiveFinWait, ReceiveLastAck;
      if s.toMe && s.dstPort == HTTP_PORT {
        match state {
          case Listen => OnListen(s);
          case SynReceived => OnSynReceived(s);
          case Established => OnEstablished(s);
          case FinWait => OnFinWait(s);
          case LastAck => OnLastAck(s);
          case _ =>
        }
      }
    }

    /** The answer to an ARP request is built in the transmit buffer that the
        segments share. */
    method OnArp()
      requires Valid()
      modifies tx.frame
      ensures Valid()
      ensures if AsksForMe(rx[..]) then tx.frame[..42] == ArpReply(rx[..]) else tx.frame[..] == old(tx.frame[..])
    {
      hide Frame, ArpReply;
      if AsksForMe(rx[..]) {
        tx.Put(0, ArpReply(rx[..]));
      }
    }

    /** The receive DMA has put a frame into the buffer. */
    method Deliver(frame: Incoming)
      requires Valid()
      modifies rx
      ensures Valid() && rx[..] == Landed(old(rx[..]), frame)
    {
      hide Wired;
      forall i | 0 <= i < |frame| {
        rx[i] := frame[i];
      }
    }

    /** rx_ethernet_isr. */
    method RxEthernetIsr()
      requires Valid()
      modifies this, tx.frame
      ensures Valid() && Model() == OnFrame(old(Model()), rx[..], page)
    {
      hide Wired, OnReceive, IsTcp, View;
      OnArp();
      if IsTcp(rx[..]) {
        OnTcp(View(rx[..]));
      }
    }

    /** The opening of timeout_isr. */
    method RestartSeconds()
      modifies `timerZero, `secs
      ensures !timerZero && secs == if old(timerZero) then 0 else old(secs)
    {
      if timerZero {
        secs := 0;
        timerZero := false;
      }
    }

    /** timeout_isr. */
    method TimeoutIsr()
      requires Valid()
      modifies `timerZero, `secs, `state, `seqNum, `lastAcked, `commandSent, `wire, `sent, tx.frame
      ensures Valid() && Model() == OnTimeout(old(Model()))
    {
      hide Wired, Wait60, Idle;
      RestartSeconds();
      match state
      case Established => CountTo10();
      case SynReceived => CountTo60();
      case FinWait => CountTo60();
      case LastAck => CountTo60();
      case _ => secs := 0;
    }

    /** One interrupt of either device. */
    method Interrupt(e: Event)
      requires Valid()
      modifies this, rx, tx.frame
      ensures Valid() && Whole() == Step(old(Whole()), e, page)
    {
      hide Wired, OnFrame, OnTimeout, Landed;
      match e
      case Receive(frame) =>
        Deliver(frame);
        RxEthernetIsr();
      case Timeout =>
        TimeoutIsr();
    }

    method CountTo10()
      requires Valid()
      modifies `secs, `state, `seqNum, `lastAcked, `commandSent, `wire, `sent, tx.frame
      ensures Valid() && Model() == Idle(old(Model()))
    {
      hide Wired, Send;
      secs := secs + 1;
      if secs == 10 {
        seqNum := (seqNum - 1) % WRAP;
        lastAcked := (lastAcked + 1) % WRAP;
        secs := 0;
        Transmit(FIN_ACK, [], 20);
        AwaitIdleFin();
      }
    }

    method AwaitIdleFin()
      requires Valid()
      modifies `state, `commandSent
      ensures Valid()
      ensures Model() == old(Model()).(conn := old(Model().conn).(state := FinWait, commandSent := true))
    {
      hide Wired;
      state := FinWait;
      commandSent := true;
    }

    method CountTo60()
      requires Valid()
      modifies `secs, `state
      ensures Valid() && Model() == Wait60(old(Model()))
    {
      hide Wired;
      secs := secs + 1;
      if secs == 60 {
        state := Listen;
        secs := 0;
      }
    }
  }
}
