/**
  From `udp_send` to a receiver: what a sequence of sends leaves on the serial line reads
  back, through the framing, the IPv4 header and the UDP header, as what was sent.
 */
module Delivery {
  import opened Bytes
  import opened Seqs
  import opened Slip
  import opened Ipv4
  import opened Reader
  import opened Udp
  import InetAddr

  /** What a caller of `udp_send` asks for. */
  datatype Message = Message(sock: Socket, src: dword, dst: dword, sport: word, dport: word, payload: seq<byte>)

  /** One successful `udp_send` and the identification it was given. */
  datatype Send = Send(msg: Message, id: word)

  function Data(m: Message): seq<byte> {
    Segment(m.sport, m.dport, m.payload)
  }

  function Packet(m: Send): seq<byte> {
    Datagram(m.msg.sock, m.msg.src, m.msg.dst, m.id, Data(m.msg))
  }

  datatype Received = Received(ip: IpView, udp: UdpView)

  /** The fields of a packet, whether or not a receiver would pass it on to UDP. */
  function ReadFields(s: seq<byte>): Option<Received> {
    match ReadIp(s)
    case None => None
    case Some(ip) =>
      match ReadUdp(ip.payload)
      case None => None
      case Some(udp) => Some(Received(ip, udp))
  }

  /** What a receiver sees of a send. */
  function Expected(m: Send): Received {
    Received(DatagramView(m.msg.sock, m.msg.src, m.msg.dst, m.id, Data(m.msg)),
             UdpView(m.msg.sport, m.msg.dport, 0, m.msg.payload))
  }

  lemma SegmentWords(sport: word, dport: word, data: seq<byte>)
    ensures var s := Segment(sport, dport, data);
            && |s| == UDP_SIZE + |data| && s[UDP_SIZE..] == data
            && NetWord(s, 0) == sport && NetWord(s, 2) == dport
            && NetWord(s, 4) == UdpLength(|data|) && NetWord(s, 6) == 0
  {
    var s := Segment(sport, dport, data);
    assert s[0..2] == Store(LittleEndian, Htons(sport));
    assert s[2..4] == Store(LittleEndian, Htons(dport));
    assert s[4..6] == Store(LittleEndian, Htons(UdpLength(|data|)));
    assert s[6..8] == Store(LittleEndian, Htons(0));
    NetWordOf(s, 0, Htons(sport));
    NetWordOf(s, 2, Htons(dport));
    NetWordOf(s, 4, Htons(UdpLength(|data|)));
    NetWordOf(s, 6, Htons(0));
    BswapChangesByteOrder(sport, 0, 0);
    BswapChangesByteOrder(dport, 0, 0);
    BswapChangesByteOrder(UdpLength(|data|), 0, 0);
  }

  /** The length field of any payload in numbers. */
  lemma SegmentLength(sport: word, dport: word, data: seq<byte>)
    ensures NetWord(Segment(sport, dport, data), 4) == (8 + |data|) % 0x1_0000
  {
    SegmentWords(sport, dport, data);
    UdpLengthIs(|data|);
  }

  lemma SegmentReadBack(sport: word, dport: word, data: seq<byte>)
    requires |data| <= MAX_PAYLOAD
    ensures ReadUdp(Segment(sport, dport, data)) == Some(UdpView(sport, dport, 0, data))
  {
    SegmentWords(sport, dport, data);
    UdpLengthFits(|data|);
    WholeSegment(Segment(sport, dport, data));
  }

  lemma WholeSegment(s: seq<byte>)
    requires UDP_SIZE <= |s| && NetWord(s, 4) == |s|
    ensures ReadUdp(s) == Some(UdpView(NetWord(s, 0), NetWord(s, 2), NetWord(s, 6), s[UDP_SIZE..]))
  {
    assert s[UDP_SIZE..|s|] == s[UDP_SIZE..];
  }

  lemma UdpLengthFits(n: nat)
    ensures UdpLength(n) == UDP_SIZE + n <==> UDP_SIZE + n < 0x1_0000
  {
  }

  /** Every datagram reads back to the addresses, ports, protocol, TTL and payload of its send. */
  lemma FieldsReadBack(m: Send)
    requires |m.msg.payload| <= MAX_PAYLOAD
    ensures ReadFields(Packet(m)) == Some(Expected(m))
  {
    var data := Data(m.msg);
    SegmentReadBack(m.msg.sport, m.msg.dport, m.msg.payload);
    SegmentWords(m.msg.sport, m.msg.dport, m.msg.payload);
    DatagramReadBack(m.msg.sock, m.msg.src, m.msg.dst, m.id, data);
  }

  // What a receiver delivers.

  /** The protocol number of UDP in an IPv4 header. */
  const UDP_PROTOCOL: byte := 17

  /**
    A receiver that delivers whole UDP datagrams: it passes on no fragment and no other
    protocol. The stack never sets the more-fragments flag, so no first fragment comes to
    complete one that it holds back.
   */
  function ReadPacket(s: seq<byte>): Option<Received> {
    match ReadFields(s)
    case None => None
    case Some(r) =>
      if r.ip.offset != 0 || r.ip.moreFragments || r.ip.proto != UDP_PROTOCOL then None else Some(r)
  }

  predicate Deliverable(m: Message) {
    !m.sock.noFragment && m.sock.protocol % 0x100 == UDP_PROTOCOL
  }

  /** A send is delivered, as it was sent, exactly when it is UDP and `no_fragment` is not set. */
  lemma DeliveredIff(m: Send)
    requires |m.msg.payload| <= MAX_PAYLOAD
    ensures Deliverable(m.msg) <==> !m.msg.sock.noFragment && m.msg.sock.protocol % 256 == 17
    ensures ReadPacket(Packet(m)) == if Deliverable(m.msg) then Some(Expected(m)) else None
  {
    FieldsReadBack(m);
  }

  /** The total length field in numbers, for any payload. */
  lemma TotalLengthIs(m: Send)
    ensures |Packet(m)| == 28 + |m.msg.payload|
    ensures NetWord(Packet(m), 2) == (28 + |m.msg.payload|) % 0x1_0000
  {
    var data := Data(m.msg);
    var f := DatagramFields(m.msg.sock, m.msg.src, m.msg.dst, |data|);
    var head := Header(f, m.id);
    HeaderWords(f, m.id);
    assert |data| == UDP_SIZE + |m.msg.payload|;
    assert (head + data)[2] == head[2] && (head + data)[3] == head[3];
    LengthWraps(|data|, f);
  }

  /** The total length is the byte count exactly while it fits 16 bits: up to 65507 bytes of payload. */
  lemma TotalLengthIff(m: Send)
    ensures NetWord(Packet(m), 2) == |Packet(m)| <==> |m.msg.payload| <= 65507
  {
    TotalLengthIs(m);
    FitsSixteenBits(28 + |m.msg.payload|);
  }

  lemma FitsSixteenBits(n: nat)
    ensures n % 0x1_0000 == n <==> n < 0x1_0000
  {
  }

  /** The UDP length is payload plus 8 exactly while that fits 16 bits. */
  lemma UdpLengthIff(sport: word, dport: word, data: seq<byte>)
    ensures NetWord(Segment(sport, dport, data), 4) == UDP_SIZE + |data| <==> UDP_SIZE + |data| < 0x1_0000
  {
    SegmentWords(sport, dport, data);
    UdpLengthFits(|data|);
  }

  // Whole runs.

  function PacketsOf(ms: seq<Send>): seq<seq<byte>> {
    Map(Packet, ms)
  }

  function ExpectedAll(ms: seq<Send>): seq<Received> {
    Map(Expected, ms)
  }

  /** One more send appends one more frame. */
  lemma SendExtendsLine(ms: seq<Send>, m: Send)
    ensures Stream(PacketsOf(ms + [m])) == Stream(PacketsOf(ms)) + Frame(Packet(m))
  {
    MapConcat(Packet, ms, [m]);
    MapOne(Packet, m);
    FlatSnoc(Frame, PacketsOf(ms), Packet(m));
  }

  /** The fields of every packet on the line. */
  function ReadLineFields(s: seq<byte>): Option<seq<Received>> {
    match ReadStream(s)
    case None => None
    case Some(ps) => ReadAllFields(ps)
  }

  function ReadAllFields(ps: seq<seq<byte>>): Option<seq<Received>> {
    if ps == [] then Some([]) else
    match (ReadAllFields(ps[..|ps| - 1]), ReadFields(ps[|ps| - 1]))
    case (Some(rs), Some(r)) => Some(rs + [r])
    case _ => None
  }

  lemma {:induction false} AllFieldsReadBack(ms: seq<Send>)
    requires forall m :: m in ms ==> |m.msg.payload| <= MAX_PAYLOAD
    ensures ReadAllFields(PacketsOf(ms)) == Some(ExpectedAll(ms))
  {
    if ms == [] {
    } else {
      var front, m := ms[..|ms| - 1], ms[|ms| - 1];
      assert m in ms;
      AllFieldsReadBack(front);
      FieldsReadBack(m);
      MapFront(Packet, ms);
      MapFront(Expected, ms);
      SplitConcat(PacketsOf(front), [Packet(m)]);
    }
  }

  /**
    For every sequence of sends, whatever bytes they hold, the serial line holds the fields
    and the payload of each, in order, and nothing else.
   */
  lemma LineFieldsReadBack(ms: seq<Send>)
    requires forall m :: m in ms ==> |m.msg.payload| <= MAX_PAYLOAD
    ensures ReadLineFields(Stream(PacketsOf(ms))) == Some(ExpectedAll(ms))
  {
    StreamRoundTrip(PacketsOf(ms));
    AllFieldsReadBack(ms);
  }

  /**
    What a receiver that knows the code's own framing delivers: the packets it passes on, in
    order. It has the whole line, and reads it from the right.
   */
  function ReadLine(s: seq<byte>): Option<seq<Received>> {
    match ReadStream(s)
    case None => None
    case Some(ps) => Some(Flat(Deliver, ps))
  }

  function Deliver(p: seq<byte>): seq<Received> {
    match ReadPacket(p)
    case None => []
    case Some(r) => [r]
  }

  function KeepDeliverable(m: Send): seq<Send> {
    if Deliverable(m.msg) then [m] else []
  }

  function DeliverableOf(ms: seq<Send>): seq<Send> {
    Flat(KeepDeliverable, ms)
  }

  lemma {:induction false} DeliveredOf(ms: seq<Send>)
    requires forall m :: m in ms ==> |m.msg.payload| <= MAX_PAYLOAD
    ensures Flat(Deliver, PacketsOf(ms)) == ExpectedAll(DeliverableOf(ms))
  {
    if ms == [] {
    } else {
      var front, m := ms[..|ms| - 1], ms[|ms| - 1];
      assert m in ms;
      DeliveredOf(front);
      DeliveredIff(m);
      MapFront(Packet, ms);
      FlatSnoc(Deliver, PacketsOf(front), Packet(m));
      MapConcat(Expected, DeliverableOf(front), KeepDeliverable(m));
      MapOne(Expected, m);
    }
  }

  /** Some sends are held back as soon as one is not deliverable, and none otherwise. */
  lemma {:induction false} DeliverableCount(ms: seq<Send>)
    ensures |DeliverableOf(ms)| <= |ms|
    ensures |DeliverableOf(ms)| == |ms| <==> forall m :: m in ms ==> Deliverable(m.msg)
    ensures |DeliverableOf(ms)| == |ms| ==> DeliverableOf(ms) == ms
  {
    if ms == [] {
    } else {
      var front, m := ms[..|ms| - 1], ms[|ms| - 1];
      DeliverableCount(front);
      assert ms == front + [m];
      assert forall n :: n in ms <==> n in front || n == m;
    }
  }

  /**
    A receiver that knows the framing gets exactly the deliverable messages, each as it was sent, in
    order; and it gets all that were sent if and only if every one is deliverable.
   */
  lemma LineDelivers(ms: seq<Send>)
    requires forall m :: m in ms ==> |m.msg.payload| <= MAX_PAYLOAD
    ensures ReadLine(Stream(PacketsOf(ms))) == Some(ExpectedAll(DeliverableOf(ms)))
    ensures ReadLine(Stream(PacketsOf(ms))) == Some(ExpectedAll(ms)) <==> forall m :: m in ms ==> Deliverable(m.msg)
  {
    StreamRoundTrip(PacketsOf(ms));
    DeliveredOf(ms);
    DeliverableCount(ms);
  }

  /** A destination given in dotted decimal is on the wire as its four numbers, in order. */
  lemma ParsedAddressOnWire(m: Send, fields: seq<string>)
    requires |m.msg.payload| <= MAX_PAYLOAD
    requires InetAddr.AreDecimal(fields) && |fields| >= 4
    requires InetAddr.AddressOf(InetAddr.Tokens(InetAddr.Join(fields))) == Some(m.msg.dst)
    ensures ReadFields(Packet(m)).Some?
    ensures ReadFields(Packet(m)).value.ip.dst ==
            [InetAddr.Value(fields[0]) % 0x100, InetAddr.Value(fields[1]) % 0x100,
             InetAddr.Value(fields[2]) % 0x100, InetAddr.Value(fields[3]) % 0x100]
  {
    FieldsReadBack(m);
    InetAddr.DecimalAddress(fields);
  }
}
