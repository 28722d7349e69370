/**
  The stack at a receiver that keeps to the standards all the way down: framing by RFC 1055,
  headers by RFC 791 and RFC 768. Which sends does it deliver?
 */
module Interop {
  import opened Bytes
  import opened Seqs
  import opened Csum
  import opened CsumLaws
  import opened Slip
  import opened SlipReceiver
  import opened Ipv4
  import opened Reader
  import opened Udp
  import opened Delivery

  /** What such a receiver delivers from the bytes of a line. */
  function ReceiveLine(s: seq<byte>): seq<Received> {
    Flat(Delivery.Deliver, Receive(s))
  }

  lemma NoPacketIsEmpty(ms: seq<Send>)
    ensures NonEmpty(PacketsOf(ms)) == PacketsOf(ms)
  {
    FlatUnchanged(SlipReceiver.Deliver, PacketsOf(ms));
  }

  predicate AllClean(ms: seq<Send>) {
    forall m :: m in ms ==> Clean(Packet(m))
  }

  lemma CleanPackets(ms: seq<Send>)
    ensures AllClean(ms) <==> forall p :: p in PacketsOf(ms) ==> Clean(p)
  {
    forall m | m in ms
      ensures Packet(m) in PacketsOf(ms)
    {
      var i :| 0 <= i < |ms| && ms[i] == m;
      assert PacketsOf(ms)[i] == Packet(m);
    }
  }

  /** It unframes what was sent, packet by packet, exactly when every packet is clean. */
  lemma PacketsReceivedIff(ms: seq<Send>)
    ensures Receive(Stream(PacketsOf(ms))) == PacketsOf(ms) <==> AllClean(ms)
  {
    NoPacketIsEmpty(ms);
    CleanPackets(ms);
    StreamReceivedIffClean(PacketsOf(ms));
  }

  /**
    An address with an octet of 192 or 219 is enough to lose a datagram: whatever follows it
    on the line, the first packet to come out is another one.
   */
  lemma AddressLosesPacket(m: Send, b: byte, s: seq<byte>)
    requires b in StoreDword(m.msg.src) || b in StoreDword(m.msg.dst)
    requires b == 192 || b == 219
    ensures !Clean(Packet(m))
    ensures var r := Receive(Frame(Packet(m)) + s); r != [] ==> r[0] != Packet(m)
  {
    AddressInPacket(m, b);
    FrameDirtyLost(Packet(m), s);
  }

  lemma AddressInPacket(m: Send, b: byte)
    requires b in StoreDword(m.msg.src) || b in StoreDword(m.msg.dst)
    ensures b in Packet(m)
  {
    var f := DatagramFields(m.msg.sock, m.msg.src, m.msg.dst, |Data(m.msg)|);
    var head := Header(f, m.id);
    LayoutBytes(RawOf(f, m.id, Checksum(LittleEndian, Layout(RawOf(f, m.id, 0)))));
    assert b in head[12..16] || b in head[16..20];
    assert b in head;
  }

  // A damaged packet is never taken for the one that was sent.

  /** To read as a send, a packet has to be as long as the packet of that send. */
  lemma LongEnough(m: Send, q: seq<byte>)
    requires |m.msg.payload| <= MAX_PAYLOAD
    requires ReadFields(q) == Some(Expected(m))
    ensures |Packet(m)| <= |q|
  {
    var header := q[0] % 0x10 * 4;
    assert Expected(m).ip.payload == q[header..NetWord(q, 2)];
  }

  /** What two packets of one header size share when they read the same. */
  lemma SameFields(q: seq<byte>, p: seq<byte>, v: IpView)
    requires ReadIp(q) == Some(v) && ReadIp(p) == Some(v)
    requires |p| <= |q| && p[0] == q[0] == 0x45 && p[6..8] == q[6..8]
    requires NetWord(p, 2) == |p|
    ensures forall i :: 0 <= i < |p| && i != 10 && i != 11 ==> p[i] == q[i]
    ensures Checksum(BigEndian, p[..HEADER_SIZE]) == 0 == Checksum(BigEndian, q[..HEADER_SIZE])
  {
    var total := NetWord(q, 2);
    assert |v.payload| == |p| - 20 == total - 20;
    SameWord(p, q, 2);
    SameWord(p, q, 4);
    assert forall i :: 0 <= i < |v.payload| ==> v.payload[i] == p[20 + i] && v.payload[i] == q[20 + i];
    forall i | 0 <= i < |p| && i != 10 && i != 11
      ensures p[i] == q[i]
    {
      if 6 <= i < 8 {
        assert p[6..8][i - 6] == q[6..8][i - 6];
      } else if 12 <= i < 16 {
        assert v.src[i - 12] == p[i] && v.src[i - 12] == q[i];
      } else if 16 <= i < 20 {
        assert v.dst[i - 16] == p[i] && v.dst[i - 16] == q[i];
      } else if 20 <= i {
        assert v.payload[i - 20] == p[i] == q[i];
      }
    }
  }

  lemma SameWord(p: seq<byte>, q: seq<byte>, i: nat)
    requires i + 2 <= |p| && i + 2 <= |q|
    ensures NetWord(p, i) == NetWord(q, i) <==> p[i] == q[i] && p[i + 1] == q[i + 1]
  {
  }

  /** Two headers that both verify and differ in the checksum field only hold 0x0000 and 0xFFFF there. */
  lemma ChecksumDecides(a: seq<byte>, b: seq<byte>)
    requires |a| == |b| == HEADER_SIZE
    requires forall i :: 0 <= i < HEADER_SIZE && i != 10 && i != 11 ==> a[i] == b[i]
    requires Checksum(BigEndian, a) == 0 == Checksum(BigEndian, b)
    ensures a == b || {NetWord(a, 10), NetWord(b, 10)} == {0, 0xFFFF}
  {
    var v, w := NetWord(a, 10), NetWord(b, 10);
    PatchSame(a, 10);
    PatchSame(b, 10);
    assert a[..10] == b[..10] && a[12..] == b[12..];
    assert Patch(BigEndian, a, 10, w) == b;
    if v != w {
      SingleWordError(BigEndian, a, 10, v, w);
    }
  }

  /** The bytes of a packet that a receiver decides on first. */
  lemma PacketStart(m: Send)
    ensures |Packet(m)| >= HEADER_SIZE
    ensures Packet(m)[0] == 0x45 && Packet(m)[6] == 0x40 && Packet(m)[7] <= 1
  {
    var f := DatagramFields(m.msg.sock, m.msg.src, m.msg.dst, |Data(m.msg)|);
    LayoutBytes(RawOf(f, m.id, Checksum(LittleEndian, Layout(RawOf(f, m.id, 0)))));
    HeaderWords(f, m.id);
    assert WithDontFragment(f.fOffVcf) == 0x4000 + f.fOffVcf;
    var head := Header(f, m.id);
    assert NetWord(head, 6) == 0x100 * head[6] as int + head[7] as int;
  }

  /** Between packets that read the same, a byte that needs escaping in one is the same in the other. */
  lemma DamageShows(p: seq<byte>, q: seq<byte>, v: IpView, i: nat)
    requires ReadIp(q) == Some(v) && ReadIp(p) == Some(v)
    requires |p| <= |q| && p[0] == q[0] == 0x45 && p[6..8] == q[6..8]
    requires NetWord(p, 2) == |p|
    requires i < |p| && (p[i] == FRAME_END || p[i] == FRAME_ESCAPE)
    ensures p[i] == q[i]
  {
    SameFields(q, p, v);
    if i == 10 || i == 11 {
      var a, b := p[..HEADER_SIZE], q[..HEADER_SIZE];
      ChecksumDecides(a, b);
      SpecialWord(a, 10, i);
      assert a == b;
      assert a[i] == p[i] && b[i] == q[i];
    }
  }

  lemma ImagesOfStart(p: seq<byte>, q: seq<byte>)
    requires |p| >= HEADER_SIZE && p[0] == 0x45 && p[6] == 0x40 && p[7] <= 1
    requires Images(p, false) <= q
    ensures q[0] == p[0] && q[6..8] == p[6..8]
  {
    PlainImage(p, q, 0);
    PlainImage(p, q, 6);
    PlainImage(p, q, 7);
    TwoBytes(p, 6);
    TwoBytes(q, 6);
  }

  lemma TwoBytes(s: seq<byte>, i: nat)
    requires i + 2 <= |s|
    ensures s[i..i + 2] == [s[i], s[i + 1]]
  {
  }

  /** A byte that plays no part in the framing comes through as it is. */
  lemma PlainImage(p: seq<byte>, q: seq<byte>, i: nat)
    requires Images(p, false) <= q && i < |p|
    requires p[i] != FRAME_END && p[i] != FRAME_ESCAPE && p[i] != ESCAPE_END && p[i] != ESCAPE_ESCAPE
    ensures q[i] == p[i]
  {
    ImageAt(p, false, i);
    assert Images(p, false)[i] == q[i];
  }

  /**
    A packet that holds the images of the bytes of a send, and reads as that send, came from
    a clean packet: the first byte that needed escaping would show in a field, or in a
    checksum that no longer verifies.
   */
  lemma ReadsAsSentOnlyIfClean(m: Send, q: seq<byte>)
    requires |m.msg.payload| <= MAX_PAYLOAD
    requires ReadFields(q) == Some(Expected(m))
    requires Images(Packet(m), false) <= q
    ensures Clean(Packet(m))
  {
    var p := Packet(m);
    if !Clean(p) {
      var i := FirstSpecial(p);
      FirstImageDiffers(p, i);
      assert Images(p, false)[i] == q[i];
      SameAtSpecial(m, q, i);
    }
  }

  lemma SameAtSpecial(m: Send, q: seq<byte>, i: nat)
    requires |m.msg.payload| <= MAX_PAYLOAD
    requires ReadFields(q) == Some(Expected(m))
    requires Images(Packet(m), false) <= q
    requires i < |Packet(m)| && (Packet(m)[i] == FRAME_END || Packet(m)[i] == FRAME_ESCAPE)
    ensures Packet(m)[i] == q[i]
  {
    PacketStart(m);
    FieldsReadBack(m);
    TotalLengthIff(m);
    ImagesOfStart(Packet(m), q);
    DamageShows(Packet(m), q, Expected(m).ip, i);
  }

  lemma FirstImageDiffers(p: seq<byte>, i: nat)
    requires i < |p| && Clean(p[..i]) && (p[i] == FRAME_END || p[i] == FRAME_ESCAPE)
    ensures Images(p, false)[i] != p[i]
  {
    ImageAt(p, false, i);
    if i > 0 {
      assert p[..i][i - 1] in p[..i];
    }
  }

  lemma SpecialWord(s: seq<byte>, at: nat, i: nat)
    requires at + 2 <= |s| && at <= i < at + 2
    requires s[i] == FRAME_END || s[i] == FRAME_ESCAPE
    ensures NetWord(s, at) != 0 && NetWord(s, at) != 0xFFFF
  {
  }

  // Whole runs. A damaged packet could hold another packet inside, so that a message comes out
  // of the frame of a later one; but then that later one has no frame left to come out of.

  /** Where an item comes out of its own group, it comes out alone. */
  predicate OwnAlone<T(==)>(groups: seq<seq<T>>, items: seq<T>) {
    && |groups| == |items|
    && forall i :: 0 <= i < |items| && items[i] in groups[i] ==> |groups[i]| == 1
  }

  lemma OwnAloneTail<T>(groups: seq<seq<T>>, items: seq<T>)
    requires items != [] && OwnAlone(groups, items)
    ensures OwnAlone(groups[1..], items[1..])
  {
  }

  /** Two ways to cut the same sequence. */
  lemma TwoCuts<T>(a: seq<T>, b: seq<T>, c: seq<T>, d: seq<T>)
    requires a + b == c + d
    ensures |a| <= |c| ==> b == c[|a|..] + d
    ensures |c| < |a| ==> d != [] && d[0] in a
  {
    SplitConcat(a, b);
    if |a| <= |c| {
      assert (c + d)[|a|..] == c[|a|..] + d;
    } else {
      assert |c + d| > |c|;
      assert d[0] == (a + b)[|c|] == a[|c|];
    }
  }

  /** Groups never make up their items after earlier ones that they still owe. */
  lemma {:induction false} NothingOwed<T>(owed: seq<T>, groups: seq<seq<T>>, items: seq<T>)
    requires owed != [] && OwnAlone(groups, items)
    ensures Flat(Whole, groups) != owed + items
    decreases |groups|
  {
    if items == [] {
    } else {
      var got, rest := groups[0], Flat(Whole, groups[1..]);
      FlatHead(Whole, groups);
      OwnAloneTail(groups, items);
      if got + rest == owed + items {
        TwoCuts(got, rest, owed, items);
        if |got| <= |owed| {
          assert owed[|got|..] + items == owed[|got|..] + [items[0]] + items[1..];
          NothingOwed(owed[|got|..] + [items[0]], groups[1..], items[1..]);
        }
      }
    }
  }

  lemma FirstGroup<T>(groups: seq<seq<T>>, items: seq<T>)
    requires items != [] && OwnAlone(groups, items) && Flat(Whole, groups) == items
    ensures groups[0] == [items[0]] && Flat(Whole, groups[1..]) == items[1..]
  {
    var got, rest := groups[0], Flat(Whole, groups[1..]);
    FlatHead(Whole, groups);
    OwnAloneTail(groups, items);
    NothingOwed([items[0]], groups[1..], items[1..]);
    HeadAndTail(got, rest, items);
  }

  lemma HeadAndTail<T>(got: seq<T>, rest: seq<T>, items: seq<T>)
    requires items != [] && got + rest == items && rest != [items[0]] + items[1..]
    ensures items[0] in got
    ensures |got| == 1 ==> got == [items[0]] && rest == items[1..]
  {
    assert items == [items[0]] + items[1..];
    assert [] + rest == rest;
    if got != [] {
      assert got[0] == (got + rest)[0];
      SplitConcat(got, rest);
    }
  }

  /** So groups that make up exactly the items give one item each. */
  lemma {:induction false} OneEach<T>(groups: seq<seq<T>>, items: seq<T>)
    requires OwnAlone(groups, items) && Flat(Whole, groups) == items
    ensures forall i :: 0 <= i < |items| ==> groups[i] == [items[i]]
    decreases |groups|
  {
    if items == [] {
    } else {
      FirstGroup(groups, items);
      OwnAloneTail(groups, items);
      OneEach(groups[1..], items[1..]);
      assert forall i :: 1 <= i < |items| ==> groups[i] == groups[1..][i - 1];
    }
  }

  /** The packets of one frame: only a clean packet comes out as its own send, and then alone. */
  lemma OwnFrame(m: Send, out: seq<seq<byte>>)
    requires |m.msg.payload| <= MAX_PAYLOAD
    requires MadeOf(out, Packet(m))
    ensures Expected(m) in Flat(Delivery.Deliver, out) ==>
            Clean(Packet(m)) && |Flat(Delivery.Deliver, out)| == 1
  {
    if Expected(m) in Flat(Delivery.Deliver, out) {
      var k :| 0 <= k < |Flat(Delivery.Deliver, out)| && Flat(Delivery.Deliver, out)[k] == Expected(m);
      var q := SourceOf(out, k);
      LongEnough(m, q);
      ReadsAsSentOnlyIfClean(m, q);
      assert out == [q];
      FlatOne(Delivery.Deliver, q);
    }
  }

  /** Whatever is delivered was read from one of the packets, and passed the receiver's tests. */
  lemma {:induction false} SourceOf(out: seq<seq<byte>>, k: nat) returns (q: seq<byte>)
    requires k < |Flat(Delivery.Deliver, out)|
    ensures q in out && ReadPacket(q) == Some(Flat(Delivery.Deliver, out)[k])
    ensures ReadFields(q) == Some(Flat(Delivery.Deliver, out)[k])
  {
    var front, last := out[..|out| - 1], out[|out| - 1];
    if k < |Flat(Delivery.Deliver, front)| {
      q := SourceOf(front, k);
    } else {
      q := last;
    }
  }

  predicate AllFit(ms: seq<Send>) {
    forall i :: 0 <= i < |ms| ==> |ms[i].msg.payload| <= MAX_PAYLOAD
  }

  /** What a line delivers, frame by frame. */
  lemma LineByFrames(ms: seq<Send>) returns (groups: seq<seq<Received>>)
    requires AllFit(ms)
    ensures ReceiveLine(Stream(PacketsOf(ms))) == Flat(Whole, groups)
    ensures |groups| == |ms|
    ensures forall i :: 0 <= i < |ms| && Expected(ms[i]) in groups[i] ==> Clean(Packet(ms[i])) && |groups[i]| == 1
  {
    var ps := PacketsOf(ms);
    forall i | 0 <= i < |ps|
      ensures ps[i] != [] && ps[i][0] != FRAME_END
    {
      PacketStart(ms[i]);
    }
    var outs := LineMakes(ps);
    FlatOfGroups(Delivery.Deliver, outs);
    groups := Map(FlatBy(Delivery.Deliver), outs);
    forall i | 0 <= i < |ms| && Expected(ms[i]) in groups[i]
      ensures Clean(Packet(ms[i])) && |groups[i]| == 1
    {
      assert MadeOf(outs[i], ps[i]);
      OwnFrame(ms[i], outs[i]);
    }
  }

  /** If all sends are delivered and nothing else, every packet was clean. */
  lemma DeliveredOnlyIfClean(ms: seq<Send>)
    requires AllFit(ms)
    requires ReceiveLine(Stream(PacketsOf(ms))) == ExpectedAll(ms)
    ensures AllClean(ms)
  {
    var groups := LineByFrames(ms);
    OneEach(groups, ExpectedAll(ms));
    forall m | m in ms
      ensures Clean(Packet(m))
    {
      var i :| 0 <= i < |ms| && ms[i] == m;
      assert groups[i] == [Expected(ms[i])];
    }
  }

  /** If all sends are delivered and nothing else, every message passes the receiver's tests. */
  lemma DeliveredOnlyIfDeliverable(ms: seq<Send>)
    requires AllFit(ms)
    requires ReceiveLine(Stream(PacketsOf(ms))) == ExpectedAll(ms)
    ensures forall m :: m in ms ==> Deliverable(m.msg)
  {
    forall m | m in ms
      ensures Deliverable(m.msg)
    {
      var i :| 0 <= i < |ms| && ms[i] == m;
      var q := SourceOf(Receive(Stream(PacketsOf(ms))), i);
      ViewDeliverable(m);
    }
  }

  lemma ViewDeliverable(m: Send)
    ensures var v := Expected(m).ip; v.offset == 0 && v.proto == UDP_PROTOCOL <==> Deliverable(m.msg)
  {
  }

  /**
    A receiver by the standards delivers exactly what was sent, in order and nothing else, if
    and only if every message is UDP without `no_fragment` and no packet, header included,
    holds a byte `C0` or `DB`.
   */
  lemma StandardDeliveryIff(ms: seq<Send>)
    requires AllFit(ms)
    ensures ReceiveLine(Stream(PacketsOf(ms))) == ExpectedAll(ms) <==>
            AllClean(ms) && forall m :: m in ms ==> Deliverable(m.msg)
  {
    if ReceiveLine(Stream(PacketsOf(ms))) == ExpectedAll(ms) {
      DeliveredOnlyIfClean(ms);
      DeliveredOnlyIfDeliverable(ms);
    }
    if AllClean(ms) && forall m :: m in ms ==> Deliverable(m.msg) {
      PacketsReceivedIff(ms);
      DeliveredOf(ms);
      DeliverableCount(ms);
    }
  }
}
