/**
  The whole stack over whole runs: `udp_send` calls one after another, each with its own
  luck, from a fresh identification table and a silent serial line to a receiver.
 */
module Stack {
  import opened Bytes
  import opened Seqs
  import opened Slip
  import opened IdSearch
  import opened IdTable
  import opened IdRuns
  import opened Ipv4
  import opened Udp
  import opened Delivery
  import opened Reader
  import opened Interop
  import opened SlipReceiver

  /** A call of `udp_send`, the entry its search starts at, and how it ends. */
  datatype UdpCall = UdpCall(msg: Message, start: nat, outcome: Outcome)

  /** The marks in the identification table and the bytes sent so far. */
  datatype World = World(used: set<nat>, line: seq<byte>)

  const FRESH := World({}, [])

  /** The calls there are: starts as `rand()` gives them, and on the link only what fits a datagram. */
  predicate Proper(c: UdpCall) {
    c.start < MODULUS && (c.outcome == Sent ==> |c.msg.payload| <= MAX_PAYLOAD)
  }

  predicate AllProper(cs: seq<UdpCall>) {
    forall i :: 0 <= i < |cs| ==> Proper(cs[i])
  }

  /** The send that a call makes: none, or one with the identification found. */
  function SendsOf(used: set<nat>, c: UdpCall): seq<Send>
    requires c.start < MODULUS
  {
    if c.outcome != Sent then [] else
    match Allocate(used, c.start)
    case None => []
    case Some(a) =>
      AllocateGives(used, c.start);
      [Send(c.msg, a.id)]
  }

  /** The world after a call, or `None` if the call never returns. */
  function Do(w: World, c: UdpCall): Option<World>
    requires c.start < MODULUS
  {
    match Transmit(w.used, Call(c.start, c.outcome))
    case None => None
    case Some(used) => Some(World(used, w.line + Stream(PacketsOf(SendsOf(w.used, c)))))
  }

  function DoAll(w: World, cs: seq<UdpCall>): Option<World>
    requires AllProper(cs)
    decreases |cs|
  {
    if cs == [] then Some(w) else
    match Do(w, cs[0])
    case None => None
    case Some(v) => DoAll(v, cs[1..])
  }

  /** All sends of a run, in order. */
  function SendsOfAll(w: World, cs: seq<UdpCall>): seq<Send>
    requires AllProper(cs)
    decreases |cs|
  {
    if cs == [] then [] else
    match Do(w, cs[0])
    case None => []
    case Some(v) => SendsOf(w.used, cs[0]) + SendsOfAll(v, cs[1..])
  }

  /** The messages of the calls that put a packet on the link. */
  function SentMessages(cs: seq<UdpCall>): seq<Message> {
    if cs == [] then [] else (if cs[0].outcome == Sent then [cs[0].msg] else []) + SentMessages(cs[1..])
  }

  function MessageOf(m: Send): Message { m.msg }

  function MessagesOf(ms: seq<Send>): seq<Message> {
    Map(MessageOf, ms)
  }

  function CallOf(c: UdpCall): Call {
    Call(c.start, c.outcome)
  }

  /** The calls of `ipv4_transmit_datagram` that a run makes. */
  function CallsOf(cs: seq<UdpCall>): seq<Call> {
    Map(CallOf, cs)
  }

  /**
    `udp_send` again, as one step of the world: every call that returns, or that is cut off
    where it overruns a buffer, does what `Do` says to the identification table and to the
    serial line, as a proper call.
   */
  method SendStep(table: Table, port: SerialPort, m: Message, random: nat,
                  reallocOk: bool, spare: nat, heapOk: bool, bufferOk: bool)
    requires table.Valid()
    requires reallocOk && UDP_SIZE + |m.payload| <= BufferAsked(|m.payload|) + spare && heapOk ==>
      Terminates(table.inUse, StartEntry(table.lastBlock, random))
    modifies table, table.used, port
    ensures table.Valid()
    ensures Proper(UdpCall(m, StartEntry(old(table.lastBlock), random),
                           UdpOutcome(|m.payload|, reallocOk, spare, heapOk, bufferOk)))
    ensures Do(World(old(table.inUse), old(port.out)),
               UdpCall(m, StartEntry(old(table.lastBlock), random),
                       UdpOutcome(|m.payload|, reallocOk, spare, heapOk, bufferOk)))
            == Some(World(table.inUse, port.out))
  {
    ghost var used, line := table.inUse, port.out;
    ghost var c := UdpCall(m, StartEntry(table.lastBlock, random),
                           UdpOutcome(|m.payload|, reallocOk, spare, heapOk, bufferOk));
    ghost var id;
    var r;
    r, id := UdpSend(table, port, m.sock, m.src, m.dst, m.sport, m.dport, m.payload,
                     random, reallocOk, spare, heapOk, bufferOk);
    if r.Done? {
      assert SendsOf(used, c) == [Send(m, id)];
      OneSend(Send(m, id));
    } else {
      assert line + [] == line;
    }
  }

  lemma OneSend(m: Send)
    ensures Stream(PacketsOf([m])) == Frame(Packet(m))
  {
    MapOne(Packet, m);
    FlatOne(Frame, Packet(m));
  }

  /** The line grows by the frames of the sends. */
  lemma {:induction false} LineOfRun(w: World, cs: seq<UdpCall>)
    requires AllProper(cs) && DoAll(w, cs).Some?
    ensures DoAll(w, cs).value.line == w.line + Stream(PacketsOf(SendsOfAll(w, cs)))
    decreases |cs|
  {
    if cs == [] {
      assert w.line + [] == w.line;
    } else {
      var v := Do(w, cs[0]).value;
      var ms, ns := SendsOf(w.used, cs[0]), SendsOfAll(v, cs[1..]);
      LineOfRun(v, cs[1..]);
      MapConcat(Packet, ms, ns);
      FlatConcat(Frame, PacketsOf(ms), PacketsOf(ns));
      Assoc(w.line, Stream(PacketsOf(ms)), Stream(PacketsOf(ns)));
    }
  }

  /** The sends are the messages of the calls that succeeded, in order, each once. */
  lemma {:induction false} SendsOfRun(w: World, cs: seq<UdpCall>)
    requires AllProper(cs) && DoAll(w, cs).Some?
    ensures MessagesOf(SendsOfAll(w, cs)) == SentMessages(cs)
    ensures forall m :: m in SendsOfAll(w, cs) ==> |m.msg.payload| <= MAX_PAYLOAD
    decreases |cs|
  {
    if cs == [] {
    } else {
      var v := Do(w, cs[0]).value;
      var ms, ns := SendsOf(w.used, cs[0]), SendsOfAll(v, cs[1..]);
      SendsOfRun(v, cs[1..]);
      MapConcat(MessageOf, ms, ns);
      MessagesOfOne(w, cs[0]);
    }
  }

  lemma MessagesOfOne(w: World, c: UdpCall)
    requires Proper(c) && Do(w, c).Some?
    ensures MessagesOf(SendsOf(w.used, c)) == if c.outcome == Sent then [c.msg] else []
    ensures forall m :: m in SendsOf(w.used, c) ==> |m.msg.payload| <= MAX_PAYLOAD
  {
  }

  /** The table changes as in a run of `ipv4_transmit_datagram`. */
  lemma {:induction false} MarksOfRun(w: World, cs: seq<UdpCall>)
    requires AllProper(cs)
    ensures ValidCalls(CallsOf(cs))
    ensures TransmitAll(w.used, CallsOf(cs)) ==
            match DoAll(w, cs) case None => None case Some(v) => Some(v.used)
    decreases |cs|
  {
    CallsAreValid(cs);
    if cs == [] {
    } else {
      MapTail(CallOf, cs);
      var next := Do(w, cs[0]);
      if next.Some? {
        MarksOfRun(next.value, cs[1..]);
      }
    }
  }

  lemma CallsAreValid(cs: seq<UdpCall>)
    requires AllProper(cs)
    ensures ValidCalls(CallsOf(cs))
  {
  }

  /**
    For every run of `udp_send` calls, from any starts, in which at most 21843 calls get a
    header but no packet buffer: every call returns; the line holds the messages of the
    calls that succeeded, in order and intact; and as many nonzero identifications stay
    marked as calls got no buffer. A call that overran a buffer counts as one that did not
    succeed, as if nothing else had been damaged.

    A receiver that knows the framing delivers exactly the deliverable messages. A receiver
    by RFC 1055 gets the packets if and only if all are clean, and delivers the messages,
    all and nothing else, if and only if besides that all are deliverable.
   */
  lemma RunDelivers(cs: seq<UdpCall>)
    requires AllProper(cs) && Leaks(CallsOf(cs)) <= 21843
    ensures DoAll(FRESH, cs).Some?
    ensures var w, ms := DoAll(FRESH, cs).value, SendsOfAll(FRESH, cs);
            && MessagesOf(ms) == SentMessages(cs)
            && |w.used - {0}| == Leaks(CallsOf(cs))
            && ReadLineFields(w.line) == Some(ExpectedAll(ms))
            && ReadLine(w.line) == Some(ExpectedAll(DeliverableOf(ms)))
            && (ReadLine(w.line) == Some(ExpectedAll(ms)) <==> AllDeliverable(SentMessages(cs)))
            && (Receive(w.line) == PacketsOf(ms) <==> AllClean(ms))
            && (ReceiveLine(w.line) == ExpectedAll(ms) <==> AllClean(ms) && AllDeliverable(SentMessages(cs)))
  {
    var ms := SendsOfAll(FRESH, cs);
    assert {} - {0} == {};
    MarksOfRun(FRESH, cs);
    TransmitsComplete({}, CallsOf(cs));
    MarkedAreLeaked(CallsOf(cs));
    LineOfRun(FRESH, cs);
    SendsOfRun(FRESH, cs);
    assert [] + Stream(PacketsOf(ms)) == Stream(PacketsOf(ms));
    LineReceived(ms);
  }

  predicate AllDeliverable(ms: seq<Message>) {
    forall m :: m in ms ==> Deliverable(m)
  }

  /** What the receivers make of a line. */
  lemma LineReceived(ms: seq<Send>)
    requires forall m :: m in ms ==> |m.msg.payload| <= MAX_PAYLOAD
    ensures var line := Stream(PacketsOf(ms));
            && ReadLineFields(line) == Some(ExpectedAll(ms))
            && ReadLine(line) == Some(ExpectedAll(DeliverableOf(ms)))
            && (ReadLine(line) == Some(ExpectedAll(ms)) <==> AllDeliverable(MessagesOf(ms)))
            && (Receive(line) == PacketsOf(ms) <==> AllClean(ms))
            && (ReceiveLine(line) == ExpectedAll(ms) <==> AllClean(ms) && AllDeliverable(MessagesOf(ms)))
  {
    LineFieldsReadBack(ms);
    LineDelivers(ms);
    DeliverableMessages(ms);
    PacketsReceivedIff(ms);
    StandardDeliveryIff(ms);
  }

  lemma DeliverableMessages(ms: seq<Send>)
    ensures (forall m :: m in ms ==> Deliverable(m.msg)) <==> AllDeliverable(MessagesOf(ms))
  {
    if AllDeliverable(MessagesOf(ms)) {
      forall m | m in ms
        ensures Deliverable(m.msg)
      {
        var i :| 0 <= i < |ms| && ms[i] == m;
        assert MessagesOf(ms)[i] == m.msg;
      }
    }
  }

  /**
    Two sends, with any calls between them, do what section 4.3 of RFC 6864 forbids exactly
    when both sockets set `no_fragment`, addresses and protocol agree, and the identification
    of the first is free again and the first that the second search finds.
   */
  lemma SendsRepeatIdIff(used: set<nat>, a: UdpCall, cs: seq<Call>, b: UdpCall)
    requires a.start < MODULUS && b.start < MODULUS && ValidCalls(cs)
    requires a.outcome == b.outcome == Sent
    requires MarksBetween(used, a.start, cs).Some?
    requires Allocate(MarksBetween(used, a.start, cs).value, b.start).Some?
    ensures Allocate(used, a.start).Some? && Allocate(used, a.start).value.id < MODULUS
    ensures Allocate(MarksBetween(used, a.start, cs).value, b.start).value.id < MODULUS
    ensures RepeatsId(Expected(Send(a.msg, Allocate(used, a.start).value.id)).ip,
                      Expected(Send(b.msg, Allocate(MarksBetween(used, a.start, cs).value, b.start).value.id)).ip)
            <==> && a.msg.sock.noFragment && b.msg.sock.noFragment
                 && a.msg.src == b.msg.src && a.msg.dst == b.msg.dst
                 && a.msg.sock.protocol % 0x100 == b.msg.sock.protocol % 0x100
                 && Allocate(used, a.start).value.id !in MarksBetween(used, a.start, cs).value
                 && a.start % STEP == b.start % STEP
                 && NothingFreeBefore(MarksBetween(used, a.start, cs).value, b.start, Allocate(used, a.start).value.id)
  {
    var v := MarksBetween(used, a.start, cs).value;
    AllocateGives(used, a.start);
    AllocateGives(v, b.start);
    ReusedAfterAnyRun(used, a.start, cs, b.start);
    ViewsRepeatIdIff(a.msg, Allocate(used, a.start).value.id, b.msg, Allocate(v, b.start).value.id);
  }

  lemma ViewsRepeatIdIff(a: Message, x: word, b: Message, y: word)
    ensures RepeatsId(Expected(Send(a, x)).ip, Expected(Send(b, y)).ip) <==>
            && a.sock.noFragment && b.sock.noFragment
            && a.src == b.src && a.dst == b.dst && a.sock.protocol % 0x100 == b.sock.protocol % 0x100
            && x == y
  {
    OnWireInjective(x, y);
    StoreDwordInjective(a.src, b.src);
    StoreDwordInjective(a.dst, b.dst);
  }
}
