/** One turn of the raw-socket server's loop, from the frame received to the frame sent. */
module UdpServer {
  import opened UdpChecksum
  import opened Options
  import P = UdpPackets
  import C = UdpClients

  /** "quit" */
  const CLOSE_MSG: seq<Byte> := [113, 117, 105, 116]

  /** The network-order value of an address. */
  function Address(ip: seq<Byte>): int {
    if |ip| == 4 then Net(ip[0], ip[1]) * 0x1_0000 + Net(ip[2], ip[3]) else 0
  }

  /** Who a request counts for. */
  function KeyOf(p: P.Path): C.Key { C.Key(Address(p.saddr), p.sport) }

  function MessageOf(r: P.Request): C.Message {
    C.Message(KeyOf(r.path), r.payload == CLOSE_MSG)
  }

  /** What one received buffer does to the table, and the frame that is sent back, if any. */
  function ServerTurn(t: C.Table, b: seq<Byte>, n: nat, serverIp: seq<Byte>): (C.Table, Option<P.Request>, C.Reply)
    requires |b| == P.BUF_SIZE
  {
    match P.ServerReads(b, n, serverIp)
    case None => (t, None, C.Silence)
    case Some(r) => var (t', reply) := C.Handle(t, MessageOf(r)); (t', Some(r), reply)
  }

  /** The keys of different senders differ. */
  lemma KeysDistinct(p: P.Path, q: P.Path)
    requires P.IsPath(p) && P.IsPath(q)
    ensures KeyOf(p) == KeyOf(q) <==> p.saddr == q.saddr && p.sport == q.sport
  {
    if Address(p.saddr) == Address(q.saddr) {
      SameWords(p.saddr, q.saddr);
      assert p.saddr == q.saddr;
    }
  }

  lemma SameWords(a: seq<Byte>, b: seq<Byte>)
    requires |a| == |b| == 4 && Address(a) == Address(b)
    ensures a[0] == b[0] && a[1] == b[1] && a[2] == b[2] && a[3] == b[3]
  {
    var a1, a0, b1, b0 := Net(a[0], a[1]), Net(a[2], a[3]), Net(b[0], b[1]), Net(b[2], b[3]);
    assert a1 == b1 && a0 == b0;
  }

  /** Receive, filter, look the sender up, count, and build the reply. */
  method HandleFrame(buf: array<Byte>, n: nat, serverIp: seq<Byte>, clients: C.Clients, ghost t: C.Table,
                     packet: array<Byte>, behind: seq<Byte>, order: ByteOrder)
    returns (r: P.Outcome)
    requires buf.Length == P.BUF_SIZE && packet.Length == P.BUF_SIZE && buf != packet && clients.Ok(t)
    requires |behind| == P.BUF_SIZE
    modifies buf, packet, clients.slots
    ensures clients.slots == old(clients.slots)
    ensures var (t', request, reply) := ServerTurn(t, old(buf[..]), n, serverIp);
            && clients.Ok(t')
            && match reply
               case Silence => r == P.NoReply
               case Counter(k) =>
                 if P.FitsPacket(request.value.payload, k)
                 then var text := P.ReplyText(request.value.payload, k);
                      && r == P.Reply(P.PAYLOAD + |text|)
                      && P.Received(packet[..], P.Frame(P.Back(request.value.path), P.SentText(text, behind)))
                 else r == P.PacketOverrun
  {
    P.RequestIsPath(buf[..], n, serverIp);
    var request := P.ServerReceive(buf, n, serverIp, order);
    if request.None? {
      return P.NoReply;
    }
    var reply := clients.HandleMessage(MessageOf(request.value), t);
    if reply.Silence? {
      return P.NoReply;
    }
    r := P.CreateReplyPacket(packet, request.value, reply.n, behind, order);
  }

  // ----- a whole conversation

  /** What the requests `rs` mean for the slot table. */
  function Messages(rs: seq<P.Request>): (ms: seq<C.Message>)
    ensures |ms| == |rs|
    ensures forall i :: 0 <= i < |rs| ==> ms[i] == MessageOf(rs[i])
  {
    seq(|rs|, i requires 0 <= i < |rs| => MessageOf(rs[i]))
  }

  /** The client's buffer holds the server's answer to `text`, as far as it fits. */
  ghost predicate ReplyArrives(p: P.Path, text: seq<Byte>, n: nat, behind: seq<Byte>, atClient: seq<Byte>)
    requires P.IsPath(p) && |behind| == P.BUF_SIZE && P.PAYLOAD + |text| < P.BUF_SIZE && n < 0x8000_0000
  {
    P.Holds(atClient, P.Frame(P.Back(p), P.SentText(P.ReplyText(text, n), behind)))
  }

  /** What a client types comes back to it with the number of its messages that the server has
      admitted since it first came or last said "quit", this one included; it prints that answer
      exactly if text, blank and number fit its buffer behind the headers. */
  lemma ConversationCounts(rs: seq<P.Request>, p: P.Path, text: seq<Byte>, behind: seq<Byte>,
                           atServer: seq<Byte>, atClient: seq<Byte>)
    requires P.IsPath(p) && p.sport == P.CLIENT_PORT && p.dport == P.SERVER_PORT
    requires text != [] && text != CLOSE_MSG && P.IsText(text)
    requires |atServer| == P.BUF_SIZE && |text| <= 1000 && P.Received(atServer, P.Frame(p, text))
    requires P.PAYLOAD + |text| < P.BUF_SIZE && |behind| == P.BUF_SIZE && |atClient| == P.MAX_INPUT_SIZE
    ensures var before := Messages(rs);
            var now := before + [C.Message(KeyOf(p), false)];
            var n := C.CountFrom(now, C.AfterQuit(now, KeyOf(p)), KeyOf(p));
            var (t', r, reply) := ServerTurn(C.Run(before), atServer, P.PAYLOAD + |text|, p.daddr);
            && r == Some(P.Request(p, text)) && t' == C.Run(now)
            && (C.Admitted(C.Run(before), KeyOf(p)) ==>
                  && reply == C.Counter(n)
                  && (n < 0x8000_0000 && ReplyArrives(p, text, n, behind, atClient) ==>
                        P.ClientReads(atClient, p.saddr, p.daddr) ==
                        if P.Prints(text, n) then P.Printed(P.ReplyText(text, n)) else P.Overrun))
  {
    var before := Messages(rs);
    var m := C.Message(KeyOf(p), false);
    var now := before + [m];
    P.FrameIsCarried(atServer, p, text);
    P.ServerReadsFrame(atServer, p, text);
    assert now[..|before|] == before && now[|before|] == m;
    if C.Admitted(C.Run(before), KeyOf(p)) {
      var n := C.CountFrom(now, C.AfterQuit(now, KeyOf(p)), KeyOf(p));
      C.ReplyCounts(before, m, C.Handle(C.Run(before), m).1.n);
      if n < 0x8000_0000 && ReplyArrives(p, text, n, behind, atClient) {
        P.Exchange(p, text, n, behind, atServer, atClient);
      }
    }
  }

  /** A received frame of an admitted sender silences the server and costs the sender its counter exactly
      if its payload reads "quit"; any other is answered. */
  lemma QuitIff(t: C.Table, b: seq<Byte>, p: P.Path, payload: seq<Byte>)
    requires p.dport == P.SERVER_PORT && |b| == P.BUF_SIZE && P.Carries(b, p, payload)
    requires payload != [] && P.IsText(payload) && P.PAYLOAD + |payload| < P.BUF_SIZE
    requires KeyOf(p) in t || |t| < 10
    ensures var (t', r, reply) := ServerTurn(t, b, P.PAYLOAD + |payload|, p.daddr);
            && r == Some(P.Request(p, payload))
            && (reply == C.Silence <==> payload == [113, 117, 105, 116])
            && (KeyOf(p) !in t' <==> payload == [113, 117, 105, 116])
            && (payload == [113, 117, 105, 116] ==> t' == t - {KeyOf(p)})
  {
    P.ServerReadsFrame(b, p, payload);
  }

  /** A frame of a sender that is not admitted changes nothing and is not answered. */
  lemma RefusedSilently(t: C.Table, b: seq<Byte>, p: P.Path, payload: seq<Byte>)
    requires p.dport == P.SERVER_PORT && |b| == P.BUF_SIZE && P.Carries(b, p, payload)
    requires payload != [] && P.IsText(payload) && P.PAYLOAD + |payload| < P.BUF_SIZE
    requires KeyOf(p) !in t && |t| >= 10
    ensures var (t', _, reply) := ServerTurn(t, b, P.PAYLOAD + |payload|, p.daddr); t' == t && reply == C.Silence
  {
    P.ServerReadsFrame(b, p, payload);
  }

  /** After a client typed "quit", its next text is answered with 1, whatever others sent before. */
  lemma QuitRestarts(t: C.Table, quit: seq<Byte>, b: seq<Byte>, p: P.Path, text: seq<Byte>)
    requires p.dport == P.SERVER_PORT && |quit| == |b| == P.BUF_SIZE
    requires text != [] && P.IsText(text) && text != [113, 117, 105, 116] && P.PAYLOAD + |text| < P.BUF_SIZE
    requires P.Carries(quit, p, [113, 117, 105, 116]) && P.Carries(b, p, text)
    requires |t| <= 10 && (KeyOf(p) in t || |t| < 10)
    ensures ServerTurn(ServerTurn(t, quit, 46, p.daddr).0, b, P.PAYLOAD + |text|, p.daddr).2 == C.Counter(1)
  {
    QuitIff(t, quit, p, [113, 117, 105, 116]);
    var t1 := t - {KeyOf(p)};
    if KeyOf(p) in t {
      assert t1.Keys == t.Keys - {KeyOf(p)};
      assert |t1| == |t1.Keys| && |t| == |t.Keys|;
    } else {
      assert t1 == t;
    }
    P.ServerReadsFrame(b, p, text);
  }
}
