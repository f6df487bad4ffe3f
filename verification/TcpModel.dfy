/** The connection of the hand-written TCP server as a protocol machine: the
    record, the two interrupt handlers as steps, and the laws of its runs. */

module TcpModel {
  import opened TcpFrame
  import opened TcpReceive
  import opened Words

  const ISS: u32 := 0x1337_0000
  const HTTP_PORT: u16 := 80
  const HTML_PAGE_LEN := 619
  const FIN_ACK: byte := 0x11
  const SYN_ACK: byte := 0x12
  const ACK: byte := 0x10

  datatype State =
    | Closed | Listen | SynSent | SynReceived | Established | CloseWait | LastAck | FinWait | Closing | TimeWait

  datatype Conn = Conn(
    state: State, peer: Peer, seqNum: u32, lastAcked: u32, lastSendedLen: u16, window: u16,
    recPayloadLen: u16, acked: bool, commandSent: bool, gotHtmlReq: bool, payload: seq<byte>)

  /** The record, the timer's static counter, and all that was transmitted. */
  datatype Server = Server(conn: Conn, secs: nat, sent: seq<Packet>)

  /** The server and what the last frames left in the receive buffer. */
  datatype Machine = Machine(server: Server, rx: Buffer)

  datatype Event = Receive(frame: Incoming) | Timeout

  predicate ConnOk(c: Conn) {
    PeerOk(c.peer) && |c.payload| == PAYLOAD_LEN
  }

  function Bit(b: bool): nat {
    if b then 1 else 0
  }

  /** get_payload_len, in 32 bits, as stored in the 16-bit field. */
  function PayloadLen(s: Arrival): u16 {
    (s.totalLen - s.dataOffset * 4 - s.ihl * 4) % WRAP % 0x1_0000
  }

  /** ack_check. */
  function AckCheck(c: Conn, s: Arrival): Conn {
    if s.ack && s.ackNum == (c.lastAcked + c.lastSendedLen + 1) % WRAP then
      var covered := if c.lastSendedLen != 0 then c.lastSendedLen + 1 else 0;
      c.(lastAcked := (c.lastAcked + covered + Bit(c.commandSent)) % WRAP, acked := true)
    else c.(acked := false)
  }

  /** The acknowledgement number moves when a packet is created. */
  function Bump(c: Conn): Conn {
    c.(seqNum := (c.seqNum + c.recPayloadLen + (if c.recPayloadLen == 0 then 1 else 0)) % WRAP)
  }

  /** create_tcp_pkt followed by send_packet. */
  function Send(sv: Server, flags: byte, headerLen: nat, payload: seq<byte>): Server {
    var c := Bump(sv.conn);
    sv.(conn := c, sent := sv.sent + [Packet(c.peer, flags, headerLen, c.lastAcked, c.seqNum, payload)])
  }

  predicate FromPeer(c: Conn, s: Arrival) {
    s.srcIp == c.peer.ip && s.srcPort == c.peer.port
  }

  predicate IsGet(s: Arrival) {
    s.body[..3] == [0x47, 0x45, 0x54]
  }

  function Latch(c: Conn, s: Arrival): Conn
    requires ConnOk(c)
  {
    c.(peer := Peer(s.srcMac, s.srcIp, s.srcPort), seqNum := s.seqNum, recPayloadLen := PayloadLen(s),
       window := s.window, lastAcked := ISS, payload := s.body[..24] + c.payload[24..])
  }

  function ReceiveListen(sv: Server, s: Arrival): (r: Server)
    requires ConnOk(sv.conn)
    ensures ConnOk(r.conn)
  {
    var sv := sv.(conn := sv.conn.(commandSent := false));
    if s.syn then Accept(sv, s) else sv
  }

  /** The latched peer's SYN is answered. */
  function Accept(sv: Server, s: Arrival): (r: Server)
    requires ConnOk(sv.conn)
    ensures ConnOk(r.conn)
  {
    var c := Latch(sv.conn, s);
    var sv := Send(sv.(conn := c), SYN_ACK, 32, c.payload[..12]);
    sv.(conn := sv.conn.(lastSendedLen := 0, state := SynReceived))
  }

  function ReceiveSynReceived(sv: Server, s: Arrival): (r: Server)
    requires ConnOk(sv.conn)
    ensures ConnOk(r.conn)
  {
    if s.ack && FromPeer(sv.conn, s) then
      var c := AckCheck(sv.conn, s);
      sv.(conn := if c.acked then c.(state := Established) else c)
    else sv
  }

  function ReceiveEstablished(sv: Server, s: Arrival, page: seq<byte>): (r: Server)
    requires ConnOk(sv.conn) && |page| == HTML_PAGE_LEN
    ensures ConnOk(r.conn)
  {
    if !(s.ack && FromPeer(sv.conn, s)) then sv
    else
      var c := AckCheck(sv.conn, s).(seqNum := s.seqNum, recPayloadLen := PayloadLen(s));
      var sv := sv.(conn := c);
      if c.acked then Answer(sv, s, page) else sv
  }

  /** The reply to an accepted segment: the page, a FIN for a FIN, or an acknowledgement. */
  function Answer(sv: Server, s: Arrival, page: seq<byte>): (r: Server)
    requires ConnOk(sv.conn) && |page| == HTML_PAGE_LEN
    ensures ConnOk(r.conn)
  {
    if sv.conn.recPayloadLen > 1 && IsGet(s) then AnswerPage(sv, s, page)
    else if s.fin then AnswerFin(sv)
    else AnswerAck(sv)
  }

  function AnswerPage(sv: Server, s: Arrival, page: seq<byte>): (r: Server)
    requires ConnOk(sv.conn) && |page| == HTML_PAGE_LEN
    ensures ConnOk(r.conn)
  {
    var sv := Send(sv.(conn := sv.conn.(window := s.window)), FIN_ACK, 20, page);
    sv.(conn := sv.conn.(lastSendedLen := HTML_PAGE_LEN, state := FinWait, payload := s.body, gotHtmlReq := true))
  }

  function AnswerFin(sv: Server): (r: Server)
    requires ConnOk(sv.conn)
    ensures ConnOk(r.conn)
  {
    var sv := Send(sv.(conn := sv.conn.(lastAcked := (sv.conn.lastAcked + 1) % WRAP)), FIN_ACK, 20, []);
    sv.(conn := sv.conn.(state := LastAck))
  }

  function AnswerAck(sv: Server): (r: Server)
    requires ConnOk(sv.conn)
    ensures ConnOk(r.conn)
  {
    var sv := Send(sv, ACK, 20, []);
    sv.(conn := sv.conn.(lastSendedLen := 0))
  }

  function ReceiveFinWait(sv: Server, s: Arrival): (r: Server)
    requires ConnOk(sv.conn)
    ensures ConnOk(r.conn)
  {
    if !(s.ack && s.fin && FromPeer(sv.conn, s)) then sv
    else
      var c := AckCheck(sv.conn.(seqNum := s.seqNum, recPayloadLen := PayloadLen(s)), s);
      if !c.acked then sv.(conn := c)
      else
        var sv := AnswerAck(sv.(conn := c));
        sv.(conn := sv.conn.(state := Listen))
  }

  function ReceiveLastAck(sv: Server, s: Arrival): (r: Server)
    requires ConnOk(sv.conn)
    ensures ConnOk(r.conn)
  {
    if !(s.ack && FromPeer(sv.conn, s)) then sv
    else
      var c := AckCheck(sv.conn.(seqNum := s.seqNum, recPayloadLen := PayloadLen(s)), s);
      sv.(conn := if c.acked then c.(state := Listen) else c)
  }

  /** The TCP half of rx_ethernet_isr. */
  function OnReceive(sv: Server, s: Arrival, page: seq<byte>): (r: Server)
    requires ConnOk(sv.conn) && |page| == HTML_PAGE_LEN
    ensures ConnOk(r.conn)
  {
    if !(s.toMe && s.dstPort == HTTP_PORT) then sv
    else
      match sv.conn.state
      case Listen => ReceiveListen(sv, s)
      case SynReceived => ReceiveSynReceived(sv, s)
      case Established => ReceiveEstablished(sv, s, page)
      case FinWait => ReceiveFinWait(sv, s)
      case LastAck => ReceiveLastAck(sv, s)
      case _ => sv
  }

  /** timeout_isr, its own restart flag being clear. */
  function OnTimeout(sv: Server): (r: Server)
    requires ConnOk(sv.conn)
    ensures ConnOk(r.conn)
  {
    match sv.conn.state
    case Established => Idle(sv)
    case SynReceived => Wait60(sv)
    case FinWait => Wait60(sv)
    case LastAck => Wait60(sv)
    case _ => sv.(secs := 0)
  }

  /** The idle limit of an established connection: the server sends a FIN. */
  function Idle(sv: Server): (r: Server)
    requires ConnOk(sv.conn)
    ensures ConnOk(r.conn)
  {
    var c := sv.conn;
    if sv.secs + 1 == 10 then
      var c := c.(seqNum := (c.seqNum - 1) % WRAP, lastAcked := (c.lastAcked + 1) % WRAP);
      var sent := Send(sv.(conn := c, secs := 0), FIN_ACK, 20, []);
      sent.(conn := sent.conn.(state := FinWait, commandSent := true))
    else sv.(secs := sv.secs + 1)
  }

  function Wait60(sv: Server): (r: Server)
    requires ConnOk(sv.conn)
    ensures ConnOk(r.conn)
  {
    if sv.secs + 1 == 60 then sv.(conn := sv.conn.(state := Listen), secs := 0)
    else sv.(secs := sv.secs + 1)
  }

  /** rx_ethernet_isr, once a frame is in the buffer. An ARP request leaves the
      connection alone. */
  function OnFrame(sv: Server, rx: Buffer, page: seq<byte>): (r: Server)
    requires ConnOk(sv.conn) && |page| == HTML_PAGE_LEN
    ensures ConnOk(r.conn)
  {
    if IsTcp(rx) then OnReceive(sv, View(rx), page) else sv
  }

  function Step(m: Machine, e: Event, page: seq<byte>): (r: Machine)
    requires ConnOk(m.server.conn) && |page| == HTML_PAGE_LEN
    ensures ConnOk(r.server.conn)
  {
    match e
    case Receive(frame) =>
      var rx := Landed(m.rx, frame);
      Machine(OnFrame(m.server, rx, page), rx)
    case Timeout => m.(server := OnTimeout(m.server))
  }

  function Run(m: Machine, events: seq<Event>, page: seq<byte>): (r: Machine)
    requires ConnOk(m.server.conn) && |page| == HTML_PAGE_LEN
    ensures ConnOk(r.server.conn)
  {
    if events == [] then m else Step(Run(m, events[..|events| - 1], page), events[|events| - 1], page)
  }

  lemma RunAppends(m: Machine, events: seq<Event>, e: Event, page: seq<byte>)
    requires ConnOk(m.server.conn) && |page| == HTML_PAGE_LEN
    ensures Run(m, events + [e], page) == Step(Run(m, events, page), e, page)
  {
    assert (events + [e])[..|events|] == events;
    hide Step;
  }

  lemma RunOne(m: Machine, e: Event, page: seq<byte>)
    requires ConnOk(m.server.conn) && |page| == HTML_PAGE_LEN
    ensures Run(m, [e], page) == Step(m, e, page)
  {
    RunAppends(m, [], e, page);
    assert [] + [e] == [e];
    hide Step;
  }

  // ------------------------------------------------------------ sequence numbers

  function Last<T>(s: seq<T>): T
    requires s != []
  {
    s[|s| - 1]
  }

  /** The sequence number after everything a segment occupies when its last
      number is a SYN or FIN (section 3.4 of RFC 9293). */
  function After(p: Packet): u32 {
    (p.seqNum + |p.payload| + 1) % WRAP
  }

  predicate Numbers(c: Conn, lastAcked: u32, lastSendedLen: nat, commandSent: bool) {
    c.lastAcked == lastAcked && c.lastSendedLen == lastSendedLen && c.commandSent == commandSent
  }

  predicate LastIsNoFin(sent: seq<Packet>) {
    sent != [] && Last(sent).flags != FIN_ACK
  }

  /** The three numbers are determined by the state, and a connection that is
      closing has just sent the FIN that its acknowledgement must cover. */
  ghost predicate Inv(sv: Server) {
    && ConnOk(sv.conn)
    && match sv.conn.state
       case Listen => true
       case SynReceived => Numbers(sv.conn, ISS, 0, false) && LastIsNoFin(sv.sent)
       case Established => Numbers(sv.conn, ISS, 0, false) && LastIsNoFin(sv.sent)
       case LastAck =>
         && Numbers(sv.conn, ISS + 1, 0, false)
         && sv.sent != [] && Last(sv.sent).flags == FIN_ACK && After(Last(sv.sent)) == ISS + 2
       case FinWait =>
         && (Numbers(sv.conn, ISS, HTML_PAGE_LEN, false) || Numbers(sv.conn, ISS + 1, 0, true))
         && sv.sent != [] && Last(sv.sent).flags == FIN_ACK
         && After(Last(sv.sent)) == (sv.conn.lastAcked + sv.conn.lastSendedLen + 1) % WRAP
       case _ => false
  }

  ghost predicate Initial(sv: Server) {
    ConnOk(sv.conn) && sv.conn.state == Listen && sv.sent == []
  }

  lemma ListenKeepsInv(sv: Server, s: Arrival)
    requires Inv(sv) && sv.conn.state == Listen
    ensures Inv(ReceiveListen(sv, s))
  {
    hide PayloadLen;
  }

  lemma SynReceivedKeepsInv(sv: Server, s: Arrival)
    requires Inv(sv) && sv.conn.state == SynReceived
    ensures Inv(ReceiveSynReceived(sv, s))
    ensures FromPeer(sv.conn, s) && s.ack ==>
              (ReceiveSynReceived(sv, s).conn.state == Established <==> s.ackNum == ISS + 1)
  {
  }

  lemma EstablishedKeepsInv(sv: Server, s: Arrival, page: seq<byte>)
    requires Inv(sv) && sv.conn.state == Established && |page| == HTML_PAGE_LEN
    ensures Inv(ReceiveEstablished(sv, s, page))
  {
    hide PayloadLen, IsGet;
  }

  lemma FinWaitKeepsInv(sv: Server, s: Arrival)
    requires Inv(sv) && sv.conn.state == FinWait
    ensures Inv(ReceiveFinWait(sv, s))
  {
    hide PayloadLen;
  }

  lemma LastAckKeepsInv(sv: Server, s: Arrival)
    requires Inv(sv) && sv.conn.state == LastAck
    ensures Inv(ReceiveLastAck(sv, s))
  {
    hide PayloadLen;
  }

  lemma TimeoutKeepsInv(sv: Server)
    requires Inv(sv)
    ensures Inv(OnTimeout(sv))
  {
  }

  lemma SegmentKeepsInv(sv: Server, s: Arrival, page: seq<byte>)
    requires Inv(sv) && |page| == HTML_PAGE_LEN
    ensures Inv(OnReceive(sv, s, page))
  {
    hide ReceiveListen, ReceiveSynReceived, ReceiveEstablished, ReceiveFinWait, ReceiveLastAck;
    match sv.conn.state
    case Listen => ListenKeepsInv(sv, s);
    case SynReceived => SynReceivedKeepsInv(sv, s);
    case Established => EstablishedKeepsInv(sv, s, page);
    case FinWait => FinWaitKeepsInv(sv, s);
    case LastAck => LastAckKeepsInv(sv, s);
    case _ =>
  }

  lemma StepKeepsInv(m: Machine, e: Event, page: seq<byte>)
    requires Inv(m.server) && |page| == HTML_PAGE_LEN
    ensures Inv(Step(m, e, page).server)
  {
    match e
    case Receive(frame) =>
      SegmentKeepsInv(m.server, View(Landed(m.rx, frame)), page);
      hide View, OnReceive, Inv;
    case Timeout => TimeoutKeepsInv(m.server);
  }

  /** Over every run of frames and time-outs, in any order. */
  lemma {:induction false} RunKeepsInv(m: Machine, events: seq<Event>, page: seq<byte>)
    requires Inv(m.server) && |page| == HTML_PAGE_LEN
    ensures Inv(Run(m, events, page).server)
  {
    if events != [] {
      RunKeepsInv(m, events[..|events| - 1], page);
      StepKeepsInv(Run(m, events[..|events| - 1], page), events[|events| - 1], page);
      hide Step, Inv;
    }
  }

  predicate Addressed(sv: Server, s: Arrival) {
    s.toMe && s.dstPort == HTTP_PORT && FromPeer(sv.conn, s)
  }

  /** What the server takes a segment with `len` bytes to occupy: these, or else
      one number. */
  function Occupies(len: u16): nat {
    if len > 0 then len else 1
  }

  /** What one closing acknowledgement does; the answer acknowledges the peer's
      FIN if and only if no data came with it. */
  lemma FinWaitAck(sv: Server, s: Arrival)
    requires Inv(sv) && sv.conn.state == FinWait && s.ack && s.fin && FromPeer(sv.conn, s)
    ensures var sv' := ReceiveFinWait(sv, s);
            && (sv'.conn.state == Listen <==> s.ackNum == After(Last(sv.sent)))
            && (sv'.conn.state != Listen ==> sv'.sent == sv.sent)
            && (sv'.conn.state == Listen ==>
                  && |sv'.sent| == |sv.sent| + 1 && Last(sv'.sent).flags == ACK
                  && Last(sv'.sent).seqNum == s.ackNum && Last(sv'.sent).payload == []
                  && Last(sv'.sent).ackNum == (s.seqNum + Occupies(PayloadLen(s))) % WRAP
                  && (Last(sv'.sent).ackNum == (s.seqNum + PayloadLen(s) + 1) % WRAP <==> PayloadLen(s) == 0))
  {
    hide PayloadLen, After;
  }

  lemma LastAckAck(sv: Server, s: Arrival)
    requires Inv(sv) && sv.conn.state == LastAck && s.ack && FromPeer(sv.conn, s)
    ensures var sv' := ReceiveLastAck(sv, s);
            && (sv'.conn.state == Listen <==> s.ackNum == After(Last(sv.sent)))
            && sv'.sent == sv.sent
  {
    hide PayloadLen, After;
  }

  /** In every reachable closing state, the peer's acknowledgement closes the
      connection if and only if it covers the FIN that was sent; and the final
      acknowledgement, sent when the server closed first, carries exactly that
      number as its sequence number. */
  lemma ClosingAck(start: Machine, events: seq<Event>, s: Arrival, page: seq<byte>)
    requires Initial(start.server) && |page| == HTML_PAGE_LEN
    requires var sv := Run(start, events, page).server;
             Addressed(sv, s) && s.ack && (sv.conn.state == LastAck || (sv.conn.state == FinWait && s.fin))
    ensures var sv := Run(start, events, page).server;
            var sv' := OnReceive(sv, s, page);
            && sv.sent != [] && Last(sv.sent).flags == FIN_ACK
            && (sv'.conn.state == Listen <==> s.ackNum == After(Last(sv.sent)))
            && (sv'.conn.state == Listen && sv.conn.state == FinWait ==>
                  && |sv'.sent| == |sv.sent| + 1 && Last(sv'.sent).flags == ACK
                  && Last(sv'.sent).seqNum == s.ackNum && Last(sv'.sent).payload == [])
            && (sv'.conn.state != Listen || sv.conn.state == LastAck ==> sv'.sent == sv.sent)
  {
    RunKeepsInv(start, events, page);
    var sv := Run(start, events, page).server;
    if sv.conn.state == FinWait {
      FinWaitAck(sv, s);
    } else {
      LastAckAck(sv, s);
    }
    hide Run, ReceiveFinWait, ReceiveLastAck, After;
  }

  /** The handshake completes if and only if the SYN is acknowledged. */
  lemma HandshakeAck(start: Machine, events: seq<Event>, s: Arrival, page: seq<byte>)
    requires Initial(start.server) && |page| == HTML_PAGE_LEN
    requires var sv := Run(start, events, page).server;
             Addressed(sv, s) && s.ack && sv.conn.state == SynReceived
    ensures OnReceive(Run(start, events, page).server, s, page).conn.state == Established <==> s.ackNum == ISS + 1
  {
    RunKeepsInv(start, events, page);
    SynReceivedKeepsInv(Run(start, events, page).server, s);
    hide Run, ReceiveSynReceived;
  }

  /** An accepted segment is answered with an acknowledgement of what it
      occupied if and only if exactly one of data and FIN is present: a bare
      acknowledgement is answered with a number one too high, and a FIN that
      follows data is left out. */
  lemma AnswerAcknowledges(sv: Server, s: Arrival, page: seq<byte>)
    requires Inv(sv) && |page| == HTML_PAGE_LEN && sv.conn.state == Established
    requires Addressed(sv, s) && s.ack && s.ackNum == ISS + 1
    ensures var sent := OnReceive(sv, s, page).sent;
            && |sent| == |sv.sent| + 1
            && Last(sent).ackNum == (s.seqNum + Occupies(PayloadLen(s))) % WRAP
            && (Last(sent).ackNum == (s.seqNum + PayloadLen(s) + Bit(s.fin)) % WRAP <==> (PayloadLen(s) > 0) != s.fin)
  {
    hide PayloadLen, IsGet;
  }

  // ------------------------------------------------------------ numbers on the wire

  /** The server's SYN occupies the number ISS, so whatever follows it should
      start at ISS + 1 (section 3.4 of RFC 9293). The answer to an accepted
      segment does so if and only if it is the FIN for a FIN without a request;
      the page and every acknowledgement carry the number of the SYN again. */
  lemma AnswerSequence(sv: Server, s: Arrival, page: seq<byte>)
    requires Inv(sv) && |page| == HTML_PAGE_LEN && sv.conn.state == Established
    requires Addressed(sv, s) && s.ack && s.ackNum == ISS + 1
    ensures var sent := OnReceive(sv, s, page).sent;
            && sent != [] && sent == sv.sent + [Last(sent)]
            && (OnReceive(sv, s, page).conn.state == FinWait <==> PayloadLen(s) > 1 && IsGet(s))
            && (Last(sent).payload == page <==> PayloadLen(s) > 1 && IsGet(s))
            && (Last(sent).seqNum == ISS + 1 <==> s.fin && !(PayloadLen(s) > 1 && IsGet(s)))
            && (Last(sent).seqNum != ISS + 1 ==> Last(sent).seqNum == ISS)
  {
    hide PayloadLen, IsGet;
  }

  /** The sender of a SYN becomes the peer and gets the number ISS; the SYN is
      acknowledged correctly if and only if it carries at most one byte. */
  lemma SynSequence(sv: Server, s: Arrival)
    requires ConnOk(sv.conn) && sv.conn.state == Listen && s.syn
    ensures var sv' := ReceiveListen(sv, s);
            && |sv'.sent| == |sv.sent| + 1 && sv'.conn.state == SynReceived
            && sv'.conn.peer == Last(sv'.sent).peer == Peer(s.srcMac, s.srcIp, s.srcPort)
            && Last(sv'.sent).flags == SYN_ACK && Last(sv'.sent).seqNum == ISS
            && Last(sv'.sent).ackNum == (s.seqNum + Occupies(PayloadLen(s))) % WRAP
            && (Last(sv'.sent).ackNum == (s.seqNum + 1) % WRAP <==> PayloadLen(s) <= 1)
  {
    hide PayloadLen;
  }

  /** The FIN of an idle connection, in its tenth second, acknowledges what the
      server last took note of; that is what it has already acknowledged if and
      only if the segment noted brought at most one byte. */
  lemma IdleFin(sv: Server)
    requires Inv(sv) && sv.conn.state == Established && sv.secs == 9
    ensures var sv' := OnTimeout(sv);
            && |sv'.sent| == |sv.sent| + 1 && sv'.conn.state == FinWait && sv'.secs == 0
            && Last(sv'.sent).flags == FIN_ACK && Last(sv'.sent).payload == [] && Last(sv'.sent).seqNum == ISS + 1
            && Last(sv'.sent).ackNum == (sv.conn.seqNum - 1 + Occupies(sv.conn.recPayloadLen)) % WRAP
            && (sv.conn.seqNum == Last(sv.sent).ackNum ==>
                  (Last(sv'.sent).ackNum == Last(sv.sent).ackNum <==> sv.conn.recPayloadLen <= 1))
  {
  }

  /** A connection that the timer closes leaves it at zero, and so does every tick
      without a connection. */
  lemma ClosingRestartsSeconds(sv: Server)
    requires Inv(sv)
    ensures OnTimeout(sv).conn.state == Listen ==> OnTimeout(sv).secs == 0
  {
  }

  /** A segment of the peer with another acknowledgement number is answered by
      nothing; once the connection is established, its number and length are
      noted all the same. */
  lemma RejectedIsNoted(sv: Server, s: Arrival, page: seq<byte>)
    requires ConnOk(sv.conn) && |page| == HTML_PAGE_LEN && Connected(sv) && Addressed(sv, s) && s.ack
    requires s.ackNum != (sv.conn.lastAcked + sv.conn.lastSendedLen + 1) % WRAP && (sv.conn.state.FinWait? ==> s.fin)
    ensures var c := sv.conn.(acked := false);
            OnReceive(sv, s, page) == sv.(conn :=
              if sv.conn.state.SynReceived? then c else c.(seqNum := s.seqNum, recPayloadLen := PayloadLen(s)))
  {
    hide PayloadLen, IsGet;
  }

  /** Without the flags that its state looks for, a segment changes nothing,
      except that a listening server forgets that it closed for idleness. */
  lemma FlaglessIsIgnored(sv: Server, s: Arrival, page: seq<byte>)
    requires ConnOk(sv.conn) && |page| == HTML_PAGE_LEN
    requires match sv.conn.state
             case Listen => !s.syn && s.toMe && s.dstPort == HTTP_PORT
             case FinWait => !(s.ack && s.fin)
             case _ => !s.ack
    ensures OnReceive(sv, s, page) ==
              if sv.conn.state.Listen? then sv.(conn := sv.conn.(commandSent := false)) else sv
  {
    hide PayloadLen, IsGet;
  }

  // ------------------------------------------------------------ packets on the wire

  /** What the server sends: its SYN with twelve bytes of options, a FIN with or
      without the page, and bare acknowledgements. */
  predicate WellFormed(p: Packet, page: seq<byte>) {
    if p.flags == SYN_ACK then p.headerLen == 32 && |p.payload| == 12
    else if p.flags == FIN_ACK then p.headerLen == 20 && (p.payload == page || p.payload == [])
    else p.flags == ACK && p.headerLen == 20 && p.payload == []
  }

  ghost predicate SendsToPeer(before: seq<Packet>, sv: Server, page: seq<byte>) {
    || sv.sent == before
    || (sv.sent != [] && sv.sent == before + [Last(sv.sent)] && WellFormed(Last(sv.sent), page)
        && Last(sv.sent).peer == sv.conn.peer)
  }

  lemma SegmentSendsToPeer(sv: Server, s: Arrival, page: seq<byte>)
    requires ConnOk(sv.conn) && |page| == HTML_PAGE_LEN
    ensures SendsToPeer(sv.sent, OnReceive(sv, s, page), page)
  {
    hide PayloadLen, IsGet, FromPeer, AckCheck;
  }

  lemma StepSendsToPeer(m: Machine, e: Event, page: seq<byte>)
    requires ConnOk(m.server.conn) && |page| == HTML_PAGE_LEN
    ensures SendsToPeer(m.server.sent, Step(m, e, page).server, page)
  {
    match e
    case Receive(frame) =>
      SegmentSendsToPeer(m.server, View(Landed(m.rx, frame)), page);
      hide View, OnReceive;
    case Timeout =>
  }

  /** Over every run, the server sends nothing else. */
  lemma {:induction false} RunIsWellFormed(start: Machine, events: seq<Event>, page: seq<byte>)
    requires Initial(start.server) && |page| == HTML_PAGE_LEN
    ensures forall p :: p in Run(start, events, page).server.sent ==> WellFormed(p, page)
  {
    if events != [] {
      var front := events[..|events| - 1];
      RunIsWellFormed(start, front, page);
      StepSendsToPeer(Run(start, front, page), events[|events| - 1], page);
      hide Step, WellFormed;
    }
  }

  /** How a receiver that reads frames as this server does understands them. */
  lemma SentFrameReads(p: Packet, page: seq<byte>, pad: seq<byte>, rx: Buffer, b: Buffer)
    requires PacketOk(p) && WellFormed(p, page) && |page| == HTML_PAGE_LEN && |pad| == 2
    requires 56 + |p.payload| <= RX_LEN && b == Landed(rx, pad + Frame(p, 0))
    ensures var s := View(b);
            && IsTcp(b) && s.srcPort == HTTP_PORT && s.dstPort == p.peer.port
            && s.seqNum == p.seqNum && s.ackNum == p.ackNum && s.ack
            && s.syn == (p.flags == SYN_ACK) && s.fin == (p.flags == FIN_ACK)
            && PayloadLen(s) == if s.syn then 0 else |p.payload|
  {
    hide View, Landed, Frame, IsTcp, PayloadLen, PacketOk;
    BuiltFrameReads(p, 0, pad, rx);
    LengthReads(View(b), |p.payload|, p.headerLen);
  }

  lemma LengthReads(s: Arrival, len: nat, headerLen: nat)
    requires s.totalLen == 40 + len && s.ihl == 5 && 4 * s.dataOffset == headerLen <= 20 + len
    ensures PayloadLen(s) == 20 + len - headerLen
  {
  }

  /** The sequence number of a packet follows from its flags, its payload and
      the packet before it. */
  function NumberOf(before: seq<Packet>, flags: byte, payload: seq<byte>): u32 {
    if flags == FIN_ACK then if payload != [] then ISS else ISS + 1
    else if flags == ACK && before != [] && Last(before).flags == FIN_ACK then After(Last(before))
    else ISS
  }

  predicate Numbered(before: seq<Packet>, p: Packet) {
    p.flags in {SYN_ACK, FIN_ACK, ACK} && p.seqNum == NumberOf(before, p.flags, p.payload)
  }

  ghost predicate Sends(before: seq<Packet>, after: seq<Packet>) {
    after == before || (after != [] && after == before + [Last(after)] && Numbered(before, Last(after)))
  }

  lemma ListenNumbers(sv: Server, s: Arrival)
    requires Inv(sv) && sv.conn.state == Listen
    ensures Sends(sv.sent, ReceiveListen(sv, s).sent)
  {
    hide PayloadLen;
  }

  lemma EstablishedNumbers(sv: Server, s: Arrival, page: seq<byte>)
    requires Inv(sv) && sv.conn.state == Established && |page| == HTML_PAGE_LEN
    ensures Sends(sv.sent, ReceiveEstablished(sv, s, page).sent)
  {
    hide PayloadLen, IsGet, FromPeer;
  }

  lemma FinWaitNumbers(sv: Server, s: Arrival)
    requires Inv(sv) && sv.conn.state == FinWait
    ensures Sends(sv.sent, ReceiveFinWait(sv, s).sent)
  {
    hide PayloadLen, FromPeer;
  }

  lemma SegmentNumbers(sv: Server, s: Arrival, page: seq<byte>)
    requires Inv(sv) && |page| == HTML_PAGE_LEN
    ensures Sends(sv.sent, OnReceive(sv, s, page).sent)
  {
    hide ReceiveListen, ReceiveEstablished, ReceiveFinWait;
    match sv.conn.state
    case Listen => ListenNumbers(sv, s);
    case SynReceived =>
    case Established => EstablishedNumbers(sv, s, page);
    case FinWait => FinWaitNumbers(sv, s);
    case LastAck =>
    case _ =>
  }

  lemma TimeoutNumbers(sv: Server)
    requires Inv(sv)
    ensures Sends(sv.sent, OnTimeout(sv).sent)
  {
  }

  lemma StepNumbers(m: Machine, e: Event, page: seq<byte>)
    requires Inv(m.server) && |page| == HTML_PAGE_LEN
    ensures Sends(m.server.sent, Step(m, e, page).server.sent)
  {
    match e
    case Receive(frame) =>
      SegmentNumbers(m.server, View(Landed(m.rx, frame)), page);
      hide View, OnReceive, Inv;
    case Timeout =>
      TimeoutNumbers(m.server);
      hide OnTimeout, Inv;
  }

  /** Over every run, so no page is ever sent where a receiver looks for it. */
  lemma {:induction false} RunNumbers(start: Machine, events: seq<Event>, page: seq<byte>)
    requires Initial(start.server) && |page| == HTML_PAGE_LEN
    ensures var sent := Run(start, events, page).server.sent;
            forall i :: 0 <= i < |sent| ==> Numbered(sent[..i], sent[i])
  {
    if events != [] {
      var front := events[..|events| - 1];
      RunNumbers(start, front, page);
      RunKeepsInv(start, front, page);
      var m := Run(start, front, page);
      StepNumbers(m, events[|events| - 1], page);
      hide Step, Numbered, Inv;
      var was, sent := m.server.sent, Run(start, events, page).server.sent;
      assert forall i :: 0 <= i < |was| ==> sent[..i] == was[..i] && sent[i] == was[i];
      assert sent != was ==> sent[..|was|] == was;
    }
  }

  /** SYN and acknowledgement open a connection. */
  lemma Opened(sv: Server, syn: Arrival, ack: Arrival, page: seq<byte>)
    requires Initial(sv) && |page| == HTML_PAGE_LEN
    requires forall s :: s in {syn, ack} ==> s.toMe && s.dstPort == HTTP_PORT
    requires syn.syn && ack.ack && ack.ackNum == ISS + 1 && ack.srcIp == syn.srcIp && ack.srcPort == syn.srcPort
    ensures var sv1 := OnReceive(sv, syn, page);
            var sv2 := OnReceive(sv1, ack, page);
            && Inv(sv2) && sv2.conn.state == Established && sv2.sent == sv1.sent && |sv2.sent| == 1
            && sv2.conn.peer.ip == syn.srcIp && sv2.conn.peer.port == syn.srcPort
            && sv2.sent[0].flags == SYN_ACK && sv2.sent[0].seqNum == ISS
  {
    assert syn in {syn, ack} && ack in {syn, ack};
    hide PayloadLen;
  }

  /** SYN, acknowledgement and request of one peer, as the server sees them. */
  predicate Exchange(syn: Arrival, ack: Arrival, get: Arrival) {
    && (forall s :: s in {syn, ack, get} ==>
          s.toMe && s.dstPort == HTTP_PORT && s.srcIp == syn.srcIp && s.srcPort == syn.srcPort)
    && syn.syn && ack.ack && ack.ackNum == ISS + 1
    && get.ack && get.ackNum == ISS + 1 && PayloadLen(get) > 1 && IsGet(get)
  }

  lemma Exchanged(sv: Server, syn: Arrival, ack: Arrival, get: Arrival, page: seq<byte>)
    requires Initial(sv) && |page| == HTML_PAGE_LEN && Exchange(syn, ack, get)
    ensures var sv3 := OnReceive(OnReceive(OnReceive(sv, syn, page), ack, page), get, page);
            sv3.conn.state == FinWait && PageAtIss(sv3.sent, page)
  {
    assert syn in {syn, ack, get} && ack in {syn, ack, get} && get in {syn, ack, get};
    Opened(sv, syn, ack, page);
    hide PayloadLen, IsGet, OnReceive;
    AnswerSequence(OnReceive(OnReceive(sv, syn, page), ack, page), get, page);
    hide Inv;
  }

  predicate PageAtIss(sent: seq<Packet>, page: seq<byte>) {
    && |sent| == 2 && sent[0].flags == SYN_ACK && sent[0].seqNum == ISS
    && sent[1].payload == page && sent[1].seqNum == ISS
  }

  /** After such an exchange, both packets that were sent start at ISS, although
      the first occupies that number. */
  lemma PageRepeatsSynNumber(start: Machine, syn: Incoming, ack: Incoming, get: Incoming, page: seq<byte>)
    requires Initial(start.server) && |page| == HTML_PAGE_LEN
    requires var rx1 := Landed(start.rx, syn);
             var rx2 := Landed(rx1, ack);
             var rx3 := Landed(rx2, get);
             IsTcp(rx1) && IsTcp(rx2) && IsTcp(rx3) && Exchange(View(rx1), View(rx2), View(rx3))
    ensures var sv := Run(start, [Receive(syn), Receive(ack), Receive(get)], page).server;
            sv.conn.state == FinWait && PageAtIss(sv.sent, page)
  {
    hide View, Landed, IsTcp, Exchange, PageAtIss, OnReceive;
    var e1, e2, e3 := Receive(syn), Receive(ack), Receive(get);
    RunOne(start, e1, page);
    RunAppends(start, [e1], e2, page);
    RunAppends(start, [e1, e2], e3, page);
    assert [e1] + [e2] == [e1, e2] && [e1, e2] + [e3] == [e1, e2, e3];
    hide Run;
    var rx1 := Landed(start.rx, syn);
    var rx2 := Landed(rx1, ack);
    Exchanged(start.server, View(rx1), View(rx2), View(Landed(rx2, get)), page);
  }

  // ------------------------------------------------------------ bounded lifetime

  function Timeouts(events: seq<Event>): nat {
    if events == [] then 0 else Timeouts(events[..|events| - 1]) + Bit(events[|events| - 1].Timeout?)
  }

  predicate Connected(sv: Server) {
    sv.conn.state.SynReceived? || sv.conn.state.Established? || sv.conn.state.FinWait? || sv.conn.state.LastAck?
  }

  /** The connection is one that the timer will end. */
  predicate OnTime(sv: Server) {
    match sv.conn.state
    case SynReceived => sv.secs < 60
    case Established => sv.secs < 10
    case FinWait => sv.secs < 60
    case LastAck => sv.secs < 60
    case _ => false
  }

  /** A bound on the time-outs still to come. */
  function Rank(sv: Server): nat
    requires OnTime(sv)
  {
    var early := sv.conn.state.Established? || (sv.conn.state.SynReceived? && sv.secs < 10);
    if early then 70 - sv.secs else 60 - sv.secs
  }

  /** The handshake completes when the counter has already passed the idle limit. */
  predicate CompletesLate(m: Machine, e: Event, page: seq<byte>)
    requires ConnOk(m.server.conn) && |page| == HTML_PAGE_LEN
  {
    m.server.conn.state == SynReceived && m.server.secs >= 10 && Step(m, e, page).server.conn.state == Established
  }

  lemma RankFalls(m: Machine, e: Event, page: seq<byte>)
    requires ConnOk(m.server.conn) && |page| == HTML_PAGE_LEN && OnTime(m.server) && !CompletesLate(m, e, page)
    ensures var sv, sv' := m.server, Step(m, e, page).server;
            sv'.conn.state == Listen || (OnTime(sv') && Rank(sv') + Bit(e.Timeout?) <= Rank(sv))
  {
    match e
    case Receive(frame) =>
      TrafficKeepsSeconds(m.server, View(Landed(m.rx, frame)), page);
      hide OnReceive, View;
    case Timeout =>
  }

  /** Segments never touch the seconds, and take a connection only onwards. */
  lemma TrafficKeepsSeconds(sv: Server, s: Arrival, page: seq<byte>)
    requires ConnOk(sv.conn) && |page| == HTML_PAGE_LEN
    ensures var sv' := OnReceive(sv, s, page);
            && sv'.secs == sv.secs
            && match sv.conn.state
               case Listen => sv'.conn.state == Listen || sv'.conn.state == SynReceived
               case SynReceived => sv'.conn.state == SynReceived || sv'.conn.state == Established
               case Established =>
                 sv'.conn.state == Established || sv'.conn.state == FinWait || sv'.conn.state == LastAck
               case FinWait => sv'.conn.state == FinWait || sv'.conn.state == Listen
               case LastAck => sv'.conn.state == LastAck || sv'.conn.state == Listen
               case _ => sv' == sv
  {
    hide PayloadLen, FromPeer, IsGet;
  }

  ghost predicate ReachesListen(m: Machine, events: seq<Event>, page: seq<byte>)
    requires ConnOk(m.server.conn) && |page| == HTML_PAGE_LEN
  {
    exists k :: 0 <= k <= |events| && Run(m, events[..k], page).server.conn.state == Listen
  }

  ghost predicate LateHandshake(m: Machine, events: seq<Event>, page: seq<byte>)
    requires ConnOk(m.server.conn) && |page| == HTML_PAGE_LEN
  {
    exists k :: 0 <= k < |events| && CompletesLate(Run(m, events[..k], page), events[k], page)
  }

  lemma {:induction false} RankBoundsRun(m: Machine, events: seq<Event>, page: seq<byte>)
    requires ConnOk(m.server.conn) && |page| == HTML_PAGE_LEN && OnTime(m.server)
    requires !ReachesListen(m, events, page) && !LateHandshake(m, events, page)
    ensures var sv' := Run(m, events, page).server;
            OnTime(sv') && Rank(sv') + Timeouts(events) <= Rank(m.server)
  {
    if events != [] {
      var n := |events| - 1;
      var front := events[..n];
      assert events[..|events|] == events;
      assert forall k :: 0 <= k <= n ==> front[..k] == events[..k];
      RankBoundsRun(m, front, page);
      RankFalls(Run(m, front, page), events[n], page);
    }
  }

  /** From the acceptance of a SYN, with the counter at zero, LISTEN is reached
      within seventy time-outs whatever arrives in between, unless the
      handshake completes only after ten. */
  lemma BoundedLifetime(m: Machine, events: seq<Event>, page: seq<byte>)
    requires ConnOk(m.server.conn) && |page| == HTML_PAGE_LEN
    requires m.server.conn.state == SynReceived && m.server.secs == 0 && Timeouts(events) >= 70
    ensures ReachesListen(m, events, page) || LateHandshake(m, events, page)
  {
    if !ReachesListen(m, events, page) && !LateHandshake(m, events, page) {
      RankBoundsRun(m, events, page);
    }
  }

  function Silence(n: nat): seq<Event> {
    seq(n, _ => Timeout)
  }

  lemma {:induction false} LateConnectionStays(m: Machine, n: nat, page: seq<byte>)
    requires ConnOk(m.server.conn) && |page| == HTML_PAGE_LEN && Connected(m.server) && !OnTime(m.server)
    ensures var sv' := Run(m, Silence(n), page).server;
            sv'.conn.state == m.server.conn.state && sv'.secs == m.server.secs + n
    decreases n
  {
    if n > 0 {
      LateConnectionStays(m, n - 1, page);
      assert Silence(n)[..n - 1] == Silence(n - 1);
    }
  }

  lemma {:induction false} SilentTimeouts(n: nat)
    ensures Timeouts(Silence(n)) == n
  {
    if n > 0 {
      SilentTimeouts(n - 1);
      assert Silence(n)[..n - 1] == Silence(n - 1);
    }
  }

  lemma {:induction false} SilenceIsNeverLate(m: Machine, n: nat, page: seq<byte>)
    requires ConnOk(m.server.conn) && |page| == HTML_PAGE_LEN
    ensures !LateHandshake(m, Silence(n), page)
  {
    forall k | 0 <= k < n
      ensures !CompletesLate(Run(m, Silence(n)[..k], page), Silence(n)[k], page)
    {
      hide Run;
    }
  }

  /** A connection whose peer falls silent is ever closed, in any state, if and
      only if its counter has not yet passed the limit of that state. */
  lemma SilenceCloses(m: Machine, page: seq<byte>)
    requires ConnOk(m.server.conn) && |page| == HTML_PAGE_LEN && Connected(m.server)
    ensures OnTime(m.server) <==> exists n: nat :: ReachesListen(m, Silence(n), page)
  {
    if OnTime(m.server) {
      SilentTimeouts(71);
      SilenceIsNeverLate(m, 71, page);
      if !ReachesListen(m, Silence(71), page) {
        RankBoundsRun(m, Silence(71), page);
      }
    } else {
      forall n: nat
        ensures !ReachesListen(m, Silence(n), page)
      {
        forall k | 0 <= k <= n
          ensures Run(m, Silence(n)[..k], page).server.conn.state != Listen
        {
          assert Silence(n)[..k] == Silence(k);
          LateConnectionStays(m, k, page);
        }
      }
    }
  }

  /** In particular, an idle connection established in time is closed. */
  lemma IdleCloses(m: Machine, page: seq<byte>)
    requires ConnOk(m.server.conn) && |page| == HTML_PAGE_LEN && m.server.conn.state == Established
    ensures m.server.secs < 10 <==> exists n: nat :: ReachesListen(m, Silence(n), page)
  {
    SilenceCloses(m, page);
  }

  /** An established connection that the timer has missed for a minute and that
      then asks for the page keeps the server in FIN_WAIT, where the timer
      misses it again. */
  lemma LateRequestBlocks(m: Machine, s: Arrival, page: seq<byte>)
    requires Inv(m.server) && |page| == HTML_PAGE_LEN && m.server.conn.state == Established && m.server.secs >= 60
    requires Addressed(m.server, s) && s.ack && s.ackNum == ISS + 1 && PayloadLen(s) > 1 && IsGet(s)
    ensures var m' := m.(server := OnReceive(m.server, s, page));
            && m'.server.conn.state == FinWait
            && forall n: nat :: !ReachesListen(m', Silence(n), page)
  {
    hide PayloadLen, IsGet;
    var m' := m.(server := OnReceive(m.server, s, page));
    assert m'.server.conn.state == FinWait && m'.server.secs == m.server.secs;
    SilenceCloses(m', page);
  }
}
