/** What frames that do not belong to a connection can change about it. All of
    them pass through the one receive buffer. */
module TcpIsolation {
  import opened Words
  import opened TcpFrame
  import opened TcpReceive
  import opened TcpModel

  /** What is in the buffer is not a segment of the connection's peer. */
  predicate Foreign(sv: Server, rx: Buffer) {
    !(IsTcp(rx) && Addressed(sv, View(rx)))
  }

  /** The events of a connection that are not foreign frames. */
  function WithoutForeign(m: Machine, events: seq<Event>, page: seq<byte>): seq<Event>
    requires ConnOk(m.server.conn) && |page| == HTML_PAGE_LEN
    decreases |events|
  {
    if events == [] || !Connected(m.server) then []
    else
      var e := events[0];
      (if e.Receive? && Foreign(m.server, Landed(m.rx, e.frame)) then [] else [e])
      + WithoutForeign(Step(m, e, page), events[1..], page)
  }

  /** The run up to the first return to LISTEN. */
  function Connection(m: Machine, events: seq<Event>, page: seq<byte>): (r: Machine)
    requires ConnOk(m.server.conn) && |page| == HTML_PAGE_LEN
    ensures ConnOk(r.server.conn)
    decreases |events|
  {
    if events == [] || !Connected(m.server) then m else Connection(Step(m, events[0], page), events[1..], page)
  }

  lemma PeerStaysLatched(m: Machine, e: Event, page: seq<byte>)
    requires ConnOk(m.server.conn) && |page| == HTML_PAGE_LEN && Connected(m.server)
    ensures Step(m, e, page).server.conn.peer == m.server.conn.peer
    ensures e.Receive? && Foreign(m.server, Landed(m.rx, e.frame)) ==> Step(m, e, page).server == m.server
  {
    match e
    case Receive(frame) =>
      var s := View(Landed(m.rx, frame));
      PeerKept(m.server, s, page);
      if !Addressed(m.server, s) {
        ForeignIgnored(m.server, s, page);
      }
      hide OnReceive, View;
    case Timeout =>
  }

  lemma PeerKept(sv: Server, s: Arrival, page: seq<byte>)
    requires ConnOk(sv.conn) && |page| == HTML_PAGE_LEN && Connected(sv)
    ensures OnReceive(sv, s, page).conn.peer == sv.conn.peer
  {
    hide PayloadLen, IsGet, FromPeer;
  }

  lemma ForeignIgnored(sv: Server, s: Arrival, page: seq<byte>)
    requires ConnOk(sv.conn) && |page| == HTML_PAGE_LEN && Connected(sv) && !Addressed(sv, s)
    ensures OnReceive(sv, s, page) == sv
  {
    hide PayloadLen, IsGet, AckCheck, Send;
  }

  /** Two runs: one with all frames, and one that starts from any contents of the
      buffer and gets only the peer's segments. If each of those brings the 64
      bytes that may be copied, then record, timer and packets come out the same. */
  lemma {:induction false} ForeignFramesAreInvisible(m: Machine, rx: Buffer, events: seq<Event>, page: seq<byte>)
    requires ConnOk(m.server.conn) && |page| == HTML_PAGE_LEN
    requires forall e :: e in WithoutForeign(m, events, page) && e.Receive? ==> Brings(e.frame, PAYLOAD_LEN)
    ensures Connection(m, events, page).server
         == Connection(Machine(m.server, rx), WithoutForeign(m, events, page), page).server
    decreases |events|
  {
    if events != [] && Connected(m.server) {
      var e, rest := events[0], events[1..];
      var kept, later := WithoutForeign(m, events, page), WithoutForeign(Step(m, e, page), rest, page);
      PeerStaysLatched(m, e, page);
      if e.Receive? && Foreign(m.server, Landed(m.rx, e.frame)) {
        hide Step, Foreign;
        assert kept == later;
        ForeignFramesAreInvisible(Step(m, e, page), rx, rest, page);
      } else {
        var m2 := Machine(m.server, rx);
        assert kept == [e] + later && kept[0] == e && kept[1..] == later && e in kept;
        assert Step(m, e, page).server == Step(m2, e, page).server by {
          if e.Receive? {
            HeaderArrives(m.rx, rx, e.frame);
            WholeArrives(m.rx, rx, e.frame);
          }
          hide View, Landed, IsTcp;
        }
        hide Step, Foreign;
        assert forall x :: x in later ==> x in kept;
        ForeignFramesAreInvisible(Step(m, e, page), Step(m2, e, page).rx, rest, page);
      }
    }
  }

  // ------------------------------------------------------------ shorter segments

  const GET: seq<byte> := [0x47, 0x45, 0x54]

  predicate Request(s: Arrival) {
    PayloadLen(s) > 1 && IsGet(s)
  }

  /** What a frame brings after its headers. */
  function Brought(frame: Incoming): seq<byte>
    requires Brings(frame, 0)
  {
    frame[BodyStart(frame)..]
  }

  /** The frame brings its headers and enough to tell whether it is a request:
      too little announced, all three bytes, or others. */
  predicate Decided(frame: Incoming) {
    Brings(frame, 0) && (Announces(frame) <= 1 || !(Brought(frame) < GET))
  }

  /** The length that the headers of a frame announce. */
  function Announces(frame: Incoming): u16 {
    PayloadLen(View(Landed(Blank(), frame)))
  }

  /** The bytes of an undecided request are the beginning of GET, so the buffer
      has the last word; those of a decided one do not let it. */
  lemma RequestDecided(rx: Buffer, frame: Incoming)
    requires Brings(frame, 0)
    ensures Decided(frame) ==> Request(View(Landed(rx, frame))) == Request(View(Landed(Blank(), frame)))
    ensures !Decided(frame) ==>
              var start := BodyStart(frame);
              && start + 3 <= RX_LEN && |frame| < start + 3
              && (Request(View(Landed(rx, frame))) <==> forall i :: |frame| - start <= i < 3 ==> rx[start + i] == GET[i])
  {
    var s, t := View(Landed(rx, frame)), View(Landed(Blank(), frame));
    HeaderArrives(rx, Blank(), frame);
    BodyArrives(rx, frame);
    BodyArrives(Blank(), frame);
    assert PayloadLen(s) == PayloadLen(t) == Announces(frame);
    hide View, Landed, PayloadLen, Announces, Blank;
    GetByByte(s);
    GetByByte(t);
    var start, brought := BodyStart(frame), Brought(frame);
    assert forall i :: 0 <= i < |brought| ==> brought[i] == frame[start + i];
    hide IsGet;
  }

  lemma GetByByte(s: Arrival)
    ensures IsGet(s) <==> s.body[0] == GET[0] && s.body[1] == GET[1] && s.body[2] == GET[2]
  {
  }

  lemma GetSpelled(s: Arrival)
    ensures IsGet(s) <==> s.body[0] as char == 'G' && s.body[1] as char == 'E' && s.body[2] as char == 'T'
  {
    GetByByte(s);
    hide IsGet;
  }

  function WithPayload(sv: Server, bytes: seq<byte>): Server {
    sv.(conn := sv.conn.(payload := bytes))
  }

  /** Two records that may differ in the bytes copied from a request. */
  predicate SameBut(a: Server, b: Server) {
    WithPayload(a, b.conn.payload) == b
  }

  lemma AnswerBlind(a: Server, b: Server, s: Arrival, t: Arrival, page: seq<byte>)
    requires ConnOk(a.conn) && ConnOk(b.conn) && |page| == HTML_PAGE_LEN && SameBut(a, b)
    requires s.(body := t.body) == t && a.conn.recPayloadLen == PayloadLen(s) && Request(s) == Request(t)
    ensures SameBut(Answer(a, s, page), Answer(b, t, page))
  {
    assert PayloadLen(s) == PayloadLen(t);
    hide PayloadLen, IsGet;
  }

  lemma EstablishedBlind(a: Server, b: Server, s: Arrival, t: Arrival, page: seq<byte>)
    requires ConnOk(a.conn) && ConnOk(b.conn) && |page| == HTML_PAGE_LEN && SameBut(a, b)
    requires s.(body := t.body) == t && Request(s) == Request(t)
    ensures SameBut(ReceiveEstablished(a, s, page), ReceiveEstablished(b, t, page))
  {
    hide Request, Answer;
    if s.ack && FromPeer(a.conn, s) {
      var c := AckCheck(a.conn, s).(seqNum := s.seqNum, recPayloadLen := PayloadLen(s));
      var d := AckCheck(b.conn, t).(seqNum := t.seqNum, recPayloadLen := PayloadLen(t));
      hide PayloadLen;
      if c.acked {
        AnswerBlind(a.(conn := c), b.(conn := d), s, t, page);
      }
    }
  }

  lemma FinWaitBlind(a: Server, b: Server, s: Arrival, t: Arrival)
    requires ConnOk(a.conn) && ConnOk(b.conn) && SameBut(a, b) && s.(body := t.body) == t
    ensures SameBut(ReceiveFinWait(a, s), ReceiveFinWait(b, t))
  {
    var c := a.conn.(seqNum := s.seqNum, recPayloadLen := PayloadLen(s));
    var d := b.conn.(seqNum := t.seqNum, recPayloadLen := PayloadLen(t));
    assert PayloadLen(s) == PayloadLen(t);
    CheckBlind(c, d, s, t);
    hide PayloadLen, AckCheck;
    var c', d' := AckCheck(c, s), AckCheck(d, t);
    if c'.acked {
      AckBlind(a.(conn := c'), b.(conn := d'));
    }
    hide AnswerAck;
  }

  lemma CheckBlind(c: Conn, d: Conn, s: Arrival, t: Arrival)
    requires c.(payload := d.payload) == d && s.(body := t.body) == t
    ensures AckCheck(c, s).payload == c.payload && AckCheck(d, t).payload == d.payload
    ensures AckCheck(c, s).(payload := d.payload) == AckCheck(d, t)
  {
  }

  lemma AckBlind(a: Server, b: Server)
    requires ConnOk(a.conn) && ConnOk(b.conn) && SameBut(a, b)
    ensures SameBut(AnswerAck(a), AnswerAck(b))
  {
  }

  lemma LastAckBlind(a: Server, b: Server, s: Arrival, t: Arrival)
    requires ConnOk(a.conn) && ConnOk(b.conn) && SameBut(a, b) && s.(body := t.body) == t
    ensures SameBut(ReceiveLastAck(a, s), ReceiveLastAck(b, t))
  {
    var c := a.conn.(seqNum := s.seqNum, recPayloadLen := PayloadLen(s));
    var d := b.conn.(seqNum := t.seqNum, recPayloadLen := PayloadLen(t));
    assert PayloadLen(s) == PayloadLen(t);
    CheckBlind(c, d, s, t);
    hide PayloadLen, AckCheck;
  }

  lemma OpeningBlind(a: Server, b: Server, s: Arrival, t: Arrival)
    requires ConnOk(a.conn) && ConnOk(b.conn) && SameBut(a, b) && s.(body := t.body) == t
    ensures SameBut(ReceiveSynReceived(a, s), ReceiveSynReceived(b, t))
  {
  }

  /** The copied bytes decide nothing, as long as the same segments are requests. */
  lemma SegmentBlind(a: Server, b: Server, s: Arrival, t: Arrival, page: seq<byte>)
    requires ConnOk(a.conn) && ConnOk(b.conn) && |page| == HTML_PAGE_LEN && SameBut(a, b) && Connected(a)
    requires s.(body := t.body) == t && Request(s) == Request(t)
    ensures SameBut(OnReceive(a, s, page), OnReceive(b, t, page))
  {
    EstablishedBlind(a, b, s, t, page);
    OpeningBlind(a, b, s, t);
    FinWaitBlind(a, b, s, t);
    LastAckBlind(a, b, s, t);
    hide ReceiveSynReceived, ReceiveEstablished, ReceiveFinWait, ReceiveLastAck, Request;
  }

  lemma StepBlind(a: Machine, b: Machine, e: Event, page: seq<byte>)
    requires ConnOk(a.server.conn) && ConnOk(b.server.conn) && |page| == HTML_PAGE_LEN
    requires SameBut(a.server, b.server) && Connected(a.server) && (e.Receive? ==> Decided(e.frame))
    ensures SameBut(Step(a, e, page).server, Step(b, e, page).server)
  {
    match e
    case Receive(frame) =>
      HeaderArrives(a.rx, b.rx, frame);
      RequestDecided(a.rx, frame);
      RequestDecided(b.rx, frame);
      hide View, Landed, IsTcp, Request, OnReceive, Decided, Brings;
      var s, t := View(Landed(a.rx, frame)), View(Landed(b.rx, frame));
      SegmentBlind(a.server, b.server, s, t, page);
    case Timeout =>
  }

  /** Two runs as above. If each of the peer's segments is decided, then state,
      numbers, timer and packets come out the same, and everything else that is
      recorded except for the copied bytes. */
  lemma {:induction false} ForeignFramesShowOnlyInPayload(m: Machine, m2: Machine, events: seq<Event>, page: seq<byte>)
    requires ConnOk(m.server.conn) && ConnOk(m2.server.conn) && |page| == HTML_PAGE_LEN && SameBut(m.server, m2.server)
    requires forall e :: e in WithoutForeign(m, events, page) && e.Receive? ==> Decided(e.frame)
    ensures SameBut(Connection(m, events, page).server,
                    Connection(m2, WithoutForeign(m, events, page), page).server)
    decreases |events|
  {
    if events != [] && Connected(m.server) {
      var e, rest := events[0], events[1..];
      var kept, later := WithoutForeign(m, events, page), WithoutForeign(Step(m, e, page), rest, page);
      PeerStaysLatched(m, e, page);
      if e.Receive? && Foreign(m.server, Landed(m.rx, e.frame)) {
        hide Step, Foreign, Decided;
        assert kept == later;
        ForeignFramesShowOnlyInPayload(Step(m, e, page), m2, rest, page);
      } else {
        hide Foreign, Decided;
        assert kept == [e] + later && kept[0] == e && kept[1..] == later && e in kept;
        StepBlind(m, m2, e, page);
        hide Step, SameBut;
        assert forall x :: x in later ==> x in kept;
        ForeignFramesShowOnlyInPayload(Step(m, e, page), Step(m2, e, page), rest, page);
      }
    }
  }

  // ------------------------------------------------------------ where both theorems end

  /** The buffer holds a segment that an established connection accepts. */
  predicate Accepted(sv: Server, rx: Buffer) {
    && sv.conn.state.Established? && IsTcp(rx) && Addressed(sv, View(rx))
    && View(rx).ack && View(rx).ackNum == (sv.conn.lastAcked + sv.conn.lastSendedLen + 1) % WRAP
  }

  /** The buffer holds a segment to the server from another address. */
  predicate FromOther(sv: Server, rx: Buffer) {
    IsTcp(rx) && View(rx).toMe && View(rx).dstPort == HTTP_PORT && !FromPeer(sv.conn, View(rx))
  }

  function Other(x: byte): (y: byte)
    ensures y != x
  {
    if x == 0 then 1 else 0
  }

  /** Another sender can leave any bytes behind, for a frame that does not
      overwrite them. */
  lemma Leftovers(m: Machine, frame: Incoming, body: seq<byte>) returns (stray: Incoming)
    requires Brings(frame, 0) && |body| == PAYLOAD_LEN
    requires IsTcp(Landed(m.rx, frame)) && Addressed(m.server, View(Landed(m.rx, frame)))
    ensures FromOther(m.server, Landed(m.rx, stray))
    ensures var start, s := BodyStart(frame), View(Landed(Landed(m.rx, stray), frame));
            && start + PAYLOAD_LEN <= RX_LEN
            && forall i :: 0 <= i < PAYLOAD_LEN ==>
                 s.body[i] == if start + i < |frame| then frame[start + i] else body[i]
  {
    var b, start := Landed(m.rx, frame), BodyStart(frame);
    assert start + PAYLOAD_LEN <= RX_LEN && TcpStart(b) == TcpStart(frame);
    stray := Stray(b, start, body);
    StrayBytes(b, start, body);
    var left := Landed(m.rx, stray);
    assert left == stray;
    BodyArrives(left, frame);
    hide Landed, Stray;
    assert View(left).srcIp[0] == left[28] && View(b).srcIp[0] == b[28];
  }

  /** The buffer `b`, as another sender would fill it. */
  function Stray(b: Buffer, start: nat, body: seq<byte>): Buffer
    requires 36 <= start && start + |body| <= RX_LEN
  {
    b[28 := Other(b[28])][..start] + body + b[start + |body|..]
  }

  lemma StrayBytes(b: Buffer, start: nat, body: seq<byte>)
    requires 36 <= start && start + |body| <= RX_LEN
    ensures var left := Stray(b, start, body);
            && (forall i :: 0 <= i < start && i != 28 ==> left[i] == b[i])
            && left[28] != b[28] && left[2..8] == b[2..8]
            && forall i :: start <= i < start + |body| ==> left[i] == body[i - start]
  {
    var left := Stray(b, start, body);
    assert forall i :: 0 <= i < start && i != 28 ==> left[i] == b[i];
    hide Stray;
  }

  /** A stray frame only changes what the next one finds in the buffer. */
  lemma AfterStray(m: Machine, stray: Incoming, e: Event, page: seq<byte>)
    requires ConnOk(m.server.conn) && |page| == HTML_PAGE_LEN && Connected(m.server)
    requires FromOther(m.server, Landed(m.rx, stray))
    ensures Run(m, [Receive(stray), e], page) == Step(Machine(m.server, Landed(m.rx, stray)), e, page)
  {
    PeerStaysLatched(m, Receive(stray), page);
    var m1 := Step(m, Receive(stray), page);
    assert m1 == Machine(m.server, Landed(m.rx, stray));
    RunOne(m, Receive(stray), page);
    RunAppends(m, [Receive(stray)], e, page);
    assert [Receive(stray)] + [e] == [Receive(stray), e];
    hide Step, Run;
  }

  /** What an accepted request does, in terms of what is in the buffer. */
  lemma RequestStep(sv: Server, rx: Buffer, frame: Incoming, page: seq<byte>)
    requires ConnOk(sv.conn) && |page| == HTML_PAGE_LEN && Accepted(sv, Landed(rx, frame))
    ensures var s, sv' := View(Landed(rx, frame)), Step(Machine(sv, rx), Receive(frame), page).server;
            if Request(s) then
              && sv'.conn.state == FinWait && sv'.conn.payload == s.body && sv'.conn.gotHtmlReq
              && sv'.sent != [] && Last(sv'.sent).payload == page
            else
              && sv'.conn.state != FinWait && sv'.sent != [] && Last(sv'.sent).payload == []
              && sv'.conn.payload == sv.conn.payload && sv'.conn.gotHtmlReq == sv.conn.gotHtmlReq
  {
    hide View, Landed, IsTcp, PayloadLen, IsGet;
  }

  lemma Overlaid(x: seq<byte>, y: seq<byte>, frame: seq<byte>, a: Buffer, b: Buffer, start: nat, n: nat)
    requires n <= |x| == |y| && start <= |frame| && start + |x| <= RX_LEN
    requires forall i :: 0 <= i < |x| ==> x[i] == if start + i < |frame| then frame[start + i] else a[start + i]
    requires forall i :: 0 <= i < |x| ==> y[i] == if start + i < |frame| then frame[start + i] else b[start + i]
    ensures x[..n] == y[..n] <==> forall i :: |frame| <= i < start + n ==> a[i] == b[i]
  {
    if x[..n] == y[..n] {
      forall i | |frame| <= i < start + n ensures a[i] == b[i] {
        assert x[..n][i - start] == y[..n][i - start];
      }
    }
  }

  /** Two views of a frame agree where the buffer does. */
  lemma BodiesAgree(a: Buffer, b: Buffer, frame: Incoming, n: nat)
    requires Brings(frame, 0) && n <= PAYLOAD_LEN
    ensures BodyStart(frame) + PAYLOAD_LEN <= RX_LEN
    ensures View(Landed(a, frame)).body[..n] == View(Landed(b, frame)).body[..n]
       <==> forall i :: |frame| <= i < BodyStart(frame) + n ==> a[i] == b[i]
  {
    BodyArrives(a, frame);
    BodyArrives(b, frame);
    var s, t := View(Landed(a, frame)), View(Landed(b, frame));
    hide View, Landed;
    Overlaid(s.body, t.body, frame, a, b, BodyStart(frame), n);
  }

  /** The record of an accepted request depends on earlier frames in exactly the
      bytes that the request does not bring. */
  lemma RecordShowsBuffer(sv: Server, a: Buffer, b: Buffer, get: Incoming, page: seq<byte>)
    requires ConnOk(sv.conn) && |page| == HTML_PAGE_LEN && Brings(get, 3)
    requires Accepted(sv, Landed(a, get)) && Request(View(Landed(a, get)))
    ensures var x, y := Step(Machine(sv, a), Receive(get), page).server, Step(Machine(sv, b), Receive(get), page).server;
            && SameBut(x, y) && BodyStart(get) + PAYLOAD_LEN <= RX_LEN
            && (x == y <==> forall i :: |get| <= i < BodyStart(get) + PAYLOAD_LEN ==> a[i] == b[i])
  {
    StepBlind(Machine(sv, a), Machine(sv, b), Receive(get), page);
    SameRequest(a, b, get);
    BodiesAgree(a, b, get, PAYLOAD_LEN);
    RequestStep(sv, a, get, page);
    var s, t := View(Landed(a, get)), View(Landed(b, get));
    assert s.body[..PAYLOAD_LEN] == s.body && t.body[..PAYLOAD_LEN] == t.body;
    AcceptedAgain(sv, a, b, get);
    RequestStep(sv, b, get, page);
    hide View, Landed, Step, Request, Decided, Brings, Accepted;
  }

  lemma SameRequest(a: Buffer, b: Buffer, frame: Incoming)
    requires Brings(frame, 3)
    ensures Decided(frame) && Request(View(Landed(a, frame))) == Request(View(Landed(b, frame)))
  {
    RequestDecided(a, frame);
    RequestDecided(b, frame);
    hide View, Landed, Request;
  }

  /** For every accepted request that brings less than the 64 bytes, there is a
      frame of another sender that shows in the record. */
  lemma ShortRequestShowsStray(m: Machine, get: Incoming, page: seq<byte>)
    requires ConnOk(m.server.conn) && |page| == HTML_PAGE_LEN
    requires Brings(get, 3) && !Brings(get, PAYLOAD_LEN)
    requires Accepted(m.server, Landed(m.rx, get)) && Request(View(Landed(m.rx, get)))
    ensures exists stray: Incoming ::
              && FromOther(m.server, Landed(m.rx, stray))
              && Run(m, [Receive(stray), Receive(get)], page).server.conn.payload[PAYLOAD_LEN - 1]
              != Run(m, [Receive(get)], page).server.conn.payload[PAYLOAD_LEN - 1]
  {
    var s, k := View(Landed(m.rx, get)), PAYLOAD_LEN - 1;
    var stray := Leftovers(m, get, s.body[k := Other(s.body[k])]);
    var left := Landed(m.rx, stray);
    AcceptedAgain(m.server, m.rx, left, get);
    SameRequest(m.rx, left, get);
    assert View(Landed(left, get)).body[k] != s.body[k];
    hide View, Landed, Step, Run, Request, IsTcp, Accepted, FromOther, Brings;
    RequestRecorded(m.server, m.rx, get, page);
    RequestRecorded(m.server, left, get, page);
    AfterStray(m, stray, Receive(get), page);
    RunOne(m, Receive(get), page);
    assert m == Machine(m.server, m.rx);
  }

  lemma AcceptedAgain(sv: Server, a: Buffer, b: Buffer, frame: Incoming)
    requires Brings(frame, 0) && Accepted(sv, Landed(a, frame))
    ensures Accepted(sv, Landed(b, frame))
  {
    HeaderArrives(a, b, frame);
    hide View, Landed;
  }

  lemma RequestRecorded(sv: Server, rx: Buffer, get: Incoming, page: seq<byte>)
    requires ConnOk(sv.conn) && |page| == HTML_PAGE_LEN && Accepted(sv, Landed(rx, get))
    requires Request(View(Landed(rx, get)))
    ensures Step(Machine(sv, rx), Receive(get), page).server.conn.payload == View(Landed(rx, get)).body
  {
    RequestStep(sv, rx, get, page);
    hide View, Landed, Step, Request, Accepted;
  }

  /** For every accepted frame that is not decided, it depends on the frames of
      other senders whether the page is sent. */
  lemma StrayDecides(m: Machine, frame: Incoming, page: seq<byte>)
    requires ConnOk(m.server.conn) && |page| == HTML_PAGE_LEN
    requires Brings(frame, 0) && !Decided(frame) && Accepted(m.server, Landed(m.rx, frame))
    ensures exists stray: Incoming ::
              && FromOther(m.server, Landed(m.rx, stray))
              && var sv := Run(m, [Receive(stray), Receive(frame)], page).server;
                 sv.conn.state == FinWait && sv.sent != [] && Last(sv.sent).payload == page
    ensures exists stray: Incoming ::
              && FromOther(m.server, Landed(m.rx, stray))
              && var sv := Run(m, [Receive(stray), Receive(frame)], page).server;
                 sv.conn.state != FinWait && sv.sent != [] && Last(sv.sent).payload == []
  {
    var s := View(Landed(m.rx, frame));
    assert |GET| == 3;
    var yes := StrayBy(m, frame, GET + s.body[3..], page);
    var no := StrayBy(m, frame, s.body[2 := Other(GET[2])], page);
    hide View, Landed, Run, Request, IsTcp, Brings, Decided, FromOther;
  }

  /** The bytes left behind complete the request, or spoil it. */
  lemma Completed(left: Buffer, frame: Incoming, body: seq<byte>)
    requires Brings(frame, 0) && !Decided(frame) && |body| == PAYLOAD_LEN
    requires var start, s := BodyStart(frame), View(Landed(left, frame));
             && start + PAYLOAD_LEN <= RX_LEN
             && forall i :: 0 <= i < PAYLOAD_LEN ==>
                  s.body[i] == if start + i < |frame| then frame[start + i] else body[i]
    ensures body[..3] == GET ==> Request(View(Landed(left, frame)))
    ensures body[2] != GET[2] ==> !Request(View(Landed(left, frame)))
  {
    RequestDecided(left, frame);
    BodyArrives(left, frame);
    var start, s := BodyStart(frame), View(Landed(left, frame));
    hide View, Landed, Request, Decided, Brings;
    assert forall i :: |frame| - start <= i < 3 ==> left[start + i] == s.body[i] && s.body[i] == body[i];
    if body[..3] == GET {
      assert body[0] == GET[0] && body[1] == GET[1] && body[2] == GET[2];
    } else if body[2] != GET[2] {
      assert left[start + 2] == body[2];
    }
  }

  lemma StrayBy(m: Machine, frame: Incoming, body: seq<byte>, page: seq<byte>) returns (stray: Incoming)
    requires ConnOk(m.server.conn) && |page| == HTML_PAGE_LEN && |body| == PAYLOAD_LEN
    requires Brings(frame, 0) && !Decided(frame) && Accepted(m.server, Landed(m.rx, frame))
    requires body[..3] == GET || body[2] != GET[2]
    ensures FromOther(m.server, Landed(m.rx, stray))
    ensures var sv := Run(m, [Receive(stray), Receive(frame)], page).server;
            && sv.sent != []
            && if body[2] == GET[2] then sv.conn.state == FinWait && Last(sv.sent).payload == page
               else sv.conn.state != FinWait && Last(sv.sent).payload == []
  {
    stray := Leftovers(m, frame, body);
    var left := Landed(m.rx, stray);
    Completed(left, frame, body);
    AcceptedAgain(m.server, m.rx, left, frame);
    hide View, Landed, Step, Run, Request, IsTcp, FromOther, Accepted, Decided, Brings;
    RequestStep(m.server, left, frame, page);
    AfterStray(m, stray, Receive(frame), page);
  }

  // ------------------------------------------------------------ the SYN

  /** The answer to a SYN repeats the twelve bytes after its fixed header, and the
      record keeps twenty-four, whoever sent them. */
  lemma SynShowsBuffer(sv: Server, a: Buffer, b: Buffer, syn: Incoming, page: seq<byte>)
    requires ConnOk(sv.conn) && |page| == HTML_PAGE_LEN && sv.conn.state == Listen && Brings(syn, 0)
    requires IsTcp(Landed(a, syn))
    requires var s := View(Landed(a, syn)); s.toMe && s.dstPort == HTTP_PORT && s.syn
    ensures var x, y := Step(Machine(sv, a), Receive(syn), page).server, Step(Machine(sv, b), Receive(syn), page).server;
            && SameBut(x.(sent := []), y.(sent := [])) && BodyStart(syn) + PAYLOAD_LEN <= RX_LEN
            && (x.sent == y.sent <==> forall i :: |syn| <= i < BodyStart(syn) + 12 ==> a[i] == b[i])
            && (x.conn == y.conn <==> forall i :: |syn| <= i < BodyStart(syn) + 24 ==> a[i] == b[i])
  {
    HeaderArrives(a, b, syn);
    SynStep(sv, a, syn, page);
    SynStep(sv, b, syn, page);
    BodiesAgree(a, b, syn, 12);
    BodiesAgree(a, b, syn, 24);
    var s, t := View(Landed(a, syn)), View(Landed(b, syn));
    hide View, Landed, Step, Brings, IsTcp;
    SynRecords(sv, s, t);
  }

  /** The record and the answer of two SYNs that differ at most in what follows. */
  lemma SynRecords(sv: Server, s: Arrival, t: Arrival)
    requires ConnOk(sv.conn) && s.syn && s.(body := t.body) == t
    ensures var x, y := ReceiveListen(sv, s), ReceiveListen(sv, t);
            && SameBut(x.(sent := []), y.(sent := []))
            && (x.sent == y.sent <==> s.body[..12] == t.body[..12])
            && (x.conn == y.conn <==> s.body[..24] == t.body[..24])
  {
    assert PayloadLen(s) == PayloadLen(t);
    hide PayloadLen;
    var x, y := ReceiveListen(sv, s), ReceiveListen(sv, t);
    assert Last(x.sent).payload == x.conn.payload[..12] == s.body[..12];
    assert Last(y.sent).payload == y.conn.payload[..12] == t.body[..12];
    assert x.conn.payload[..24] == s.body[..24] && y.conn.payload[..24] == t.body[..24];
  }

  lemma SynStep(sv: Server, rx: Buffer, syn: Incoming, page: seq<byte>)
    requires ConnOk(sv.conn) && |page| == HTML_PAGE_LEN && sv.conn.state == Listen
    requires IsTcp(Landed(rx, syn))
    requires var s := View(Landed(rx, syn)); s.toMe && s.dstPort == HTTP_PORT && s.syn
    ensures Step(Machine(sv, rx), Receive(syn), page).server == ReceiveListen(sv, View(Landed(rx, syn)))
  {
    hide View, Landed, ReceiveListen;
  }
}
