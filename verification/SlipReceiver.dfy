/**
  What a receiver written to the "PROTOCOL" section of RFC 1055 makes of the bytes that
  `slip_transmit` sends.
 */
module SlipReceiver {
  import opened Bytes
  import opened Seqs
  import opened Slip

  /** Neither delimiter nor escape: the payloads for which the code adds no byte. */
  predicate Clean(p: seq<byte>) {
    FRAME_END !in p && FRAME_ESCAPE !in p
  }

  /** The byte that follows an escape stands for another one, or for itself. */
  function Escaped(c: byte): byte {
    if c == ESCAPE_END then FRAME_END else if c == ESCAPE_ESCAPE then FRAME_ESCAPE else c
  }

  /**
    The packets a receiver delivers, given the bytes of the packet it is in and whether
    the last byte was an escape. Empty packets are dropped.
   */
  function Packets(s: seq<byte>, packet: seq<byte>, escape: bool): seq<seq<byte>> {
    if s == [] then []
    else if escape then Packets(s[1..], packet + [Escaped(s[0])], false)
    else if s[0] == FRAME_END then Deliver(packet) + Packets(s[1..], [], false)
    else if s[0] == FRAME_ESCAPE then Packets(s[1..], packet, true)
    else Packets(s[1..], packet + [s[0]], false)
  }

  function Deliver(packet: seq<byte>): seq<seq<byte>> {
    if packet == [] then [] else [packet]
  }

  function Receive(s: seq<byte>): seq<seq<byte>> {
    Packets(s, [], false)
  }

  function NonEmpty(ps: seq<seq<byte>>): seq<seq<byte>> {
    Flat(Deliver, ps)
  }

  // The receiver one byte at a time.

  lemma PacketsCons(c: byte, s: seq<byte>, packet: seq<byte>, escape: bool)
    ensures Packets([c] + s, packet, escape) ==
            if escape then Packets(s, packet + [Escaped(c)], false)
            else if c == FRAME_END then Deliver(packet) + Packets(s, [], false)
            else if c == FRAME_ESCAPE then Packets(s, packet, true)
            else Packets(s, packet + [c], false)
  {
  }

  /** Bytes that are neither delimiter nor escape go straight into the packet. */
  lemma {:induction false} PacketsClean(p: seq<byte>, s: seq<byte>, packet: seq<byte>)
    requires Clean(p)
    ensures Packets(p + s, packet, false) == Packets(s, packet + p, false)
  {
    if p == [] {
      assert p + s == s;
      assert packet + p == packet;
    } else {
      var c, rest := p[0], p[1..];
      assert c in p;
      assert forall b :: b in rest ==> b in p;
      assert p + s == [c] + (rest + s);
      PacketsCons(c, rest + s, packet, false);
      PacketsClean(rest, s, packet + [c]);
      assert packet + [c] + rest == packet + p;
    }
  }

  /** Once a packet has begun, the next one delivered starts with what is there. */
  lemma {:induction false} PacketsKeep(s: seq<byte>, packet: seq<byte>, escape: bool)
    requires packet != []
    ensures var r := Packets(s, packet, escape); r != [] ==> packet <= r[0]
    decreases |s|
  {
    if s == [] {
    } else {
      if escape {
        PacketsKeep(s[1..], packet + [Escaped(s[0])], false);
      } else if s[0] == FRAME_END {
      } else if s[0] == FRAME_ESCAPE {
        PacketsKeep(s[1..], packet, true);
      } else {
        PacketsKeep(s[1..], packet + [s[0]], false);
      }
    }
  }

  /** Nothing is added to a clean payload, neither by the code nor by the standard. */
  lemma EscapeClean(p: seq<byte>)
    requires Clean(p)
    ensures Escape(p) == p && Flat(StandardByte, p) == p
  {
    forall i | 0 <= i < |p|
      ensures EscapeByte(p[i]) == [p[i]] == StandardByte(p[i])
    {
      assert p[i] in p;
    }
    FlatUnchanged(EscapeByte, p);
    FlatUnchanged(StandardByte, p);
  }

  // A frame whose payload is clean, and one whose payload is not.

  lemma FrameCleanReceived(p: seq<byte>, s: seq<byte>)
    requires Clean(p)
    ensures Receive(Frame(p) + s) == Deliver(p) + Receive(s)
  {
    EscapeClean(p);
    assert Frame(p) + s == [FRAME_END] + (p + ([FRAME_END] + s));
    PacketsCons(FRAME_END, p + ([FRAME_END] + s), [], false);
    PacketsClean(p, [FRAME_END] + s, []);
    assert [] + p == p;
    PacketsCons(FRAME_END, s, p, false);
  }

  /** A payload splits at its first byte that needs escaping. */
  lemma FirstSpecial(p: seq<byte>) returns (i: nat)
    requires !Clean(p)
    ensures i < |p| && Clean(p[..i]) && (p[i] == FRAME_END || p[i] == FRAME_ESCAPE)
  {
    i := 0;
    while p[i] != FRAME_END && p[i] != FRAME_ESCAPE
      invariant i < |p|
      invariant forall j :: 0 <= j < i ==> p[j] != FRAME_END && p[j] != FRAME_ESCAPE
      decreases |p| - i
    {
      i := i + 1;
    }
  }

  /** The receiver never sees a payload that needed escaping. */
  lemma FrameDirtyLost(p: seq<byte>, s: seq<byte>)
    requires !Clean(p)
    ensures var r := Receive(Frame(p) + s); r != [] ==> r[0] != p
  {
    var i := FirstSpecial(p);
    var head, c := p[..i], p[i];
    var mark := if c == FRAME_END then ESCAPE_END else ESCAPE_ESCAPE;
    var rest := [c] + Escape(p[i + 1..]) + [FRAME_END] + s;
    FrameAtSpecial(p, i, s);
    BeginsWith(head, mark, rest);
    assert (head + [mark])[i] == mark;
  }

  lemma BeginsWith(head: seq<byte>, mark: byte, rest: seq<byte>)
    requires Clean(head) && Clean([mark])
    ensures var r := Receive([FRAME_END] + (head + ([mark] + rest))); r != [] ==> head + [mark] <= r[0]
  {
    PacketsCons(FRAME_END, head + ([mark] + rest), [], false);
    PacketsClean(head, [mark] + rest, []);
    assert [] + head == head;
    PacketsCons(mark, rest, head, false);
    PacketsKeep(rest, head + [mark], false);
  }

  lemma FrameAtSpecial(p: seq<byte>, i: nat, s: seq<byte>)
    requires i < |p| && Clean(p[..i]) && (p[i] == FRAME_END || p[i] == FRAME_ESCAPE)
    ensures var mark := if p[i] == FRAME_END then ESCAPE_END else ESCAPE_ESCAPE;
            Frame(p) + s == [FRAME_END] + (p[..i] + ([mark] + ([p[i]] + Escape(p[i + 1..]) + [FRAME_END] + s)))
  {
    var tail := p[i..];
    assert p == p[..i] + tail;
    FlatConcat(EscapeByte, p[..i], tail);
    EscapeClean(p[..i]);
    FlatHead(EscapeByte, tail);
    assert tail[1..] == p[i + 1..];
    var mark := if p[i] == FRAME_END then ESCAPE_END else ESCAPE_ESCAPE;
    assert EscapeByte(p[i]) == [mark] + [p[i]];
    Regroup([FRAME_END], p[..i], [mark], [p[i]], Escape(p[i + 1..]), s);
  }

  lemma Regroup(e: seq<byte>, a: seq<byte>, b: seq<byte>, c: seq<byte>, d: seq<byte>, s: seq<byte>)
    ensures e + (a + (b + c + d)) + e + s == e + (a + (b + (c + d + e + s)))
  {
  }

  /**
    The first packet that comes out of the frame of a non-empty payload, whatever bytes
    follow it on the line, is that payload if and only if the payload is clean.
   */
  lemma FirstPacketIffClean(p: seq<byte>, s: seq<byte>)
    requires p != []
    ensures var r := Receive(Frame(p) + s); r != [] && r[0] == p <==> 0xC0 !in p && 0xDB !in p
  {
    if Clean(p) {
      FrameCleanReceived(p, s);
    } else {
      FrameDirtyLost(p, s);
    }
  }

  /** Over a whole run, the receiver gets what was sent exactly when every payload is clean. */
  lemma {:induction false} StreamReceivedIffClean(ps: seq<seq<byte>>)
    ensures Receive(Stream(ps)) == NonEmpty(ps) <==> forall p :: p in ps ==> Clean(p)
    ensures Receive(Stream(ps)) == NonEmpty(ps) <==> forall p :: p in ps ==> 0xC0 !in p && 0xDB !in p
  {
    if ps == [] {
    } else {
      var p, rest := ps[0], ps[1..];
      FlatHead(Frame, ps);
      FlatHead(Deliver, ps);
      assert p in ps;
      if Clean(p) {
        FrameCleanReceived(p, Stream(rest));
        StreamReceivedIffClean(rest);
        SplitConcat(Deliver(p), Receive(Stream(rest)));
        SplitConcat(Deliver(p), NonEmpty(rest));
        assert forall q :: q in ps <==> q == p || q in rest;
      } else {
        FrameDirtyLost(p, Stream(rest));
        assert NonEmpty(ps)[0] == p;
      }
    }
  }

  // What comes out of a frame in general. The receiver adds one byte to its packet for each
  // byte of the payload, and ends the packet after each end byte in it.

  /** The byte that a payload byte turns into; `escape` says that the byte before it was an escape. */
  function Image(c: byte, escape: bool): byte {
    var first := EscapeByte(c)[0];
    if escape then Escaped(first) else first
  }

  function Images(p: seq<byte>, escape: bool): (s: seq<byte>)
    ensures |s| == |p|
    decreases |p|
  {
    if p == [] then [] else [Image(p[0], escape)] + Images(p[1..], p[0] == FRAME_ESCAPE)
  }

  lemma {:induction false} ImageAt(p: seq<byte>, escape: bool, i: nat)
    requires i < |p|
    ensures Images(p, escape)[i] == Image(p[i], if i == 0 then escape else p[i - 1] == FRAME_ESCAPE)
    decreases i
  {
    if i == 0 {
    } else {
      ImageAt(p[1..], p[0] == FRAME_ESCAPE, i - 1);
    }
  }

  /** Where a receiver stands: the packets delivered, the packet it is in, and a pending escape. */
  datatype Progress = Progress(done: seq<seq<byte>>, packet: seq<byte>, escape: bool)

  /** Where it stands after the escaped form of `p`. */
  function Through(p: seq<byte>, packet: seq<byte>, escape: bool): Progress
    decreases |p|
  {
    if p == [] then Progress([], packet, escape) else
    var longer := packet + [Image(p[0], escape)];
    if p[0] == FRAME_END then
      var r := Through(p[1..], [], false);
      r.(done := [longer] + r.done)
    else Through(p[1..], longer, p[0] == FRAME_ESCAPE)
  }

  lemma {:induction false} PacketsThrough(p: seq<byte>, s: seq<byte>, packet: seq<byte>, escape: bool)
    ensures var r := Through(p, packet, escape);
            Packets(Escape(p) + s, packet, escape) == r.done + Packets(s, r.packet, r.escape)
    decreases |p|
  {
    if p == [] {
      assert Escape(p) + s == s;
    } else {
      var rest := Escape(p[1..]) + s;
      FlatHead(EscapeByte, p);
      Assoc(EscapeByte(p[0]), Escape(p[1..]), s);
      PacketsByte(p[0], rest, packet, escape);
      if p[0] == FRAME_END {
        PacketsThrough(p[1..], s, [], false);
        var r := Through(p[1..], [], false);
        Assoc([packet + [Image(p[0], escape)]], r.done, Packets(s, r.packet, r.escape));
      } else {
        PacketsThrough(p[1..], s, packet + [Image(p[0], escape)], p[0] == FRAME_ESCAPE);
      }
    }
  }

  lemma PacketsByte(c: byte, s: seq<byte>, packet: seq<byte>, escape: bool)
    ensures var longer := packet + [Image(c, escape)];
            Packets(EscapeByte(c) + s, packet, escape) ==
            if c == FRAME_END then [longer] + Packets(s, [], false) else Packets(s, longer, c == FRAME_ESCAPE)
  {
    var first := EscapeByte(c)[0];
    if c == FRAME_END || c == FRAME_ESCAPE {
      assert EscapeByte(c) + s == [first] + ([c] + s);
      PacketsCons(first, [c] + s, packet, escape);
      PacketsCons(c, s, packet + [Image(c, escape)], false);
    } else {
      PacketsCons(c, s, packet, escape);
    }
  }

  /** No packet is longer than what was there and what came. */
  lemma {:induction false} ThroughBound(p: seq<byte>, packet: seq<byte>, escape: bool)
    ensures var r := Through(p, packet, escape);
            && (forall q :: q in r.done ==> |q| <= |packet| + |p|)
            && |r.packet| <= |packet| + |p|
    decreases |p|
  {
    if p == [] {
    } else if p[0] == FRAME_END {
      ThroughBound(p[1..], [], false);
    } else {
      ThroughBound(p[1..], packet + [Image(p[0], escape)], p[0] == FRAME_ESCAPE);
    }
  }

  /** A payload that ends in its only end byte, or has none, stays in one packet. */
  lemma {:induction false} ThroughWhole(p: seq<byte>, packet: seq<byte>, escape: bool)
    requires p != [] && FRAME_END !in p[..|p| - 1]
    ensures Through(p, packet, escape) ==
            if p[|p| - 1] == FRAME_END then Progress([packet + Images(p, escape)], [], false)
            else Progress([], packet + Images(p, escape), p[|p| - 1] == FRAME_ESCAPE)
    decreases |p|
  {
    var rest, longer := p[1..], packet + [Image(p[0], escape)];
    if rest == [] {
      assert packet + Images(p, escape) == longer;
    } else {
      assert p[0] in p[..|p| - 1];
      assert rest[..|rest| - 1] == p[..|p| - 1][1..];
      ThroughWhole(rest, longer, p[0] == FRAME_ESCAPE);
      Assoc(packet, [Image(p[0], escape)], Images(rest, p[0] == FRAME_ESCAPE));
    }
  }

  /** With an end byte inside, and none first, every packet is shorter than the payload. */
  lemma {:induction false} ThroughSplit(p: seq<byte>, packet: seq<byte>, escape: bool)
    requires p != [] && FRAME_END in p[..|p| - 1]
    ensures var r := Through(p, packet, escape);
            && (forall q :: q in r.done ==> |q| < |packet| + |p|)
            && |r.packet| < |p|
    ensures p[0] != FRAME_END ==> |Through(p, packet, escape).packet| + 1 < |p|
    decreases |p|
  {
    var rest, longer := p[1..], packet + [Image(p[0], escape)];
    if p[0] == FRAME_END {
      ThroughBound(rest, [], false);
    } else {
      var i :| 0 <= i < |p| - 1 && p[i] == FRAME_END;
      assert rest[..|rest| - 1][i - 1] == FRAME_END;
      ThroughSplit(rest, longer, p[0] == FRAME_ESCAPE);
    }
  }

  /** A packet as long as `p` is the only one, and holds the images of the bytes of `p`. */
  predicate MadeOf(out: seq<seq<byte>>, p: seq<byte>) {
    forall q :: q in out && |p| <= |q| ==> |out| == 1 && Images(p, false) <= q
  }

  /** What the frame of `p` makes before another frame, or nothing, follows it. */
  lemma FrameMakes(p: seq<byte>, s: seq<byte>) returns (out: seq<seq<byte>>)
    requires p != [] && p[0] != FRAME_END
    requires s != [] ==> s[0] == FRAME_END
    ensures Receive(Frame(p) + s) == out + Receive(s)
    ensures MadeOf(out, p)
  {
    var r := Through(p, [], false);
    assert Frame(p) + s == [FRAME_END] + (Escape(p) + ([FRAME_END] + s));
    PacketsCons(FRAME_END, Escape(p) + ([FRAME_END] + s), [], false);
    PacketsThrough(p, [FRAME_END] + s, [], false);
    var last := AfterEnd(r.packet, r.escape, s);
    out := r.done + last;
    Assoc(r.done, last, Receive(s));
    if FRAME_END in p[..|p| - 1] {
      ThroughSplit(p, [], false);
    } else {
      ThroughWhole(p, [], false);
      assert [] + Images(p, false) == Images(p, false);
    }
  }

  /** A line of frames, frame by frame. */
  lemma {:induction false} LineMakes(ps: seq<seq<byte>>) returns (outs: seq<seq<seq<byte>>>)
    requires forall i :: 0 <= i < |ps| ==> ps[i] != [] && ps[i][0] != FRAME_END
    ensures Receive(Stream(ps)) == Flat(Whole, outs)
    ensures |outs| == |ps| && forall i :: 0 <= i < |ps| ==> MadeOf(outs[i], ps[i])
  {
    if ps == [] {
      outs := [];
    } else {
      var rest := LineMakes(ps[1..]);
      FlatHead(Frame, ps);
      StreamStarts(ps[1..]);
      var out := FrameMakes(ps[0], Stream(ps[1..]));
      outs := [out] + rest;
      FlatHead(Whole, outs);
    }
  }

  lemma StreamStarts(ps: seq<seq<byte>>)
    ensures Stream(ps) != [] ==> Stream(ps)[0] == FRAME_END
  {
    if ps != [] {
      FlatHead(Frame, ps);
    }
  }

  /** The end marker ends the packet; after an escape it joins it, and the next start marker ends it. */
  lemma AfterEnd(packet: seq<byte>, escape: bool, s: seq<byte>) returns (last: seq<seq<byte>>)
    requires s != [] ==> s[0] == FRAME_END
    ensures Packets([FRAME_END] + s, packet, escape) == last + Receive(s)
    ensures forall q :: q in last ==> q == packet || (escape && q == packet + [FRAME_END])
    ensures |last| <= 1 && (!escape && packet == [] ==> last == [])
  {
    PacketsCons(FRAME_END, s, packet, escape);
    if !escape {
      last := Deliver(packet);
    } else if s == [] {
      last := [];
    } else {
      assert s == [FRAME_END] + s[1..];
      PacketsCons(FRAME_END, s[1..], packet + [FRAME_END], false);
      PacketsCons(FRAME_END, s[1..], [], false);
      last := [packet + [FRAME_END]];
    }
  }

  // The framing RFC 1055 asks for, and where the code's framing coincides with it.

  function StandardByte(c: byte): seq<byte> {
    if c == FRAME_END then [FRAME_ESCAPE, ESCAPE_END]
    else if c == FRAME_ESCAPE then [FRAME_ESCAPE, ESCAPE_ESCAPE]
    else [c]
  }

  function StandardFrame(p: seq<byte>): seq<byte> {
    [FRAME_END] + Flat(StandardByte, p) + [FRAME_END]
  }

  /** The standard framing in numbers: C0 gives DB DC, DB gives DB DD, and any other byte itself. */
  lemma StandardFrameBytes(p: seq<byte>, c: byte)
    ensures StandardFrame([]) == [0xC0, 0xC0]
    ensures var f := StandardFrame(p);
            StandardFrame(p + [c]) ==
            f[..|f| - 1] + (if c == 0xC0 then [0xDB, 0xDC] else if c == 0xDB then [0xDB, 0xDD] else [c]) + [0xC0]
  {
    FlatSnoc(StandardByte, p, c);
    var f := StandardFrame(p);
    assert f[..|f| - 1] == [FRAME_END] + Flat(StandardByte, p);
    Assoc([FRAME_END], Flat(StandardByte, p), StandardByte(c));
  }

  /** The receiver in numbers, one byte at a time. */
  lemma ReceiverStep(c: byte, s: seq<byte>, packet: seq<byte>)
    ensures Packets([], packet, false) == [] == Packets([], packet, true)
    ensures Packets([c] + s, packet, false) ==
            if c == 0xC0 then (if packet == [] then [] else [packet]) + Packets(s, [], false)
            else if c == 0xDB then Packets(s, packet, true)
            else Packets(s, packet + [c], false)
    ensures Packets([c] + s, packet, true) ==
            Packets(s, packet + [if c == 0xDC then 0xC0 else if c == 0xDD then 0xDB else c], false)
  {
    PacketsCons(c, s, packet, false);
    PacketsCons(c, s, packet, true);
  }

  lemma {:induction false} PacketsStandard(p: seq<byte>, s: seq<byte>, packet: seq<byte>)
    ensures Packets(Flat(StandardByte, p) + s, packet, false) == Packets(s, packet + p, false)
  {
    if p == [] {
      assert [] + s == s;
      assert packet + p == packet;
    } else {
      var c, rest := p[0], p[1..];
      var t := Flat(StandardByte, rest) + s;
      FlatHead(StandardByte, p);
      Assoc(StandardByte(c), Flat(StandardByte, rest), s);
      PacketsStandardByte(c, t, packet);
      PacketsStandard(rest, s, packet + [c]);
      assert packet + [c] + rest == packet + p;
    }
  }

  lemma PacketsStandardByte(c: byte, t: seq<byte>, packet: seq<byte>)
    ensures Packets(StandardByte(c) + t, packet, false) == Packets(t, packet + [c], false)
  {
  }

  /** The receiver undoes the standard framing of every payload. */
  lemma StandardFrameReceived(p: seq<byte>)
    ensures Receive(StandardFrame(p)) == Deliver(p)
  {
    var body := Flat(StandardByte, p);
    assert StandardFrame(p) == [FRAME_END] + (body + [FRAME_END]);
    PacketsCons(FRAME_END, body + [FRAME_END], [], false);
    PacketsStandard(p, [FRAME_END], []);
    assert [] + p == p;
    assert [FRAME_END] == [FRAME_END] + [];
    PacketsCons(FRAME_END, [], p, false);
    assert Deliver(p) + [] == Deliver(p);
  }

  /** The code frames a payload as RFC 1055 does exactly when nothing needs escaping. */
  lemma FrameIsStandardIffClean(p: seq<byte>)
    ensures Frame(p) == StandardFrame(p) <==> 0xC0 !in p && 0xDB !in p
  {
    StandardFrameReceived(p);
    assert Frame(p) + [] == Frame(p);
    if Clean(p) {
      EscapeClean(p);
    } else {
      FrameDirtyLost(p, []);
      assert p != [];
    }
  }
}
