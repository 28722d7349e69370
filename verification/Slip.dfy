/**
  Serial line framing: `slip_transmit` of `src/slip.c`, as the code emits it.

  The code puts `DC` before a data byte `C0` and `DD` before a data byte `DB`, and then
  sends the data byte itself. RFC 1055 replaces such a byte by `DB DC` or `DB DD`.
 */
module Slip {
  import opened Bytes
  import opened Seqs

  const FRAME_END: byte := 0xC0
  const FRAME_ESCAPE: byte := 0xDB
  const ESCAPE_END: byte := 0xDC
  const ESCAPE_ESCAPE: byte := 0xDD

  /** What goes out for one data byte. */
  function EscapeByte(c: byte): seq<byte> {
    if c == FRAME_END then [ESCAPE_END, c]
    else if c == FRAME_ESCAPE then [ESCAPE_ESCAPE, c]
    else [c]
  }

  function Escape(p: seq<byte>): seq<byte> {
    Flat(EscapeByte, p)
  }

  function Frame(p: seq<byte>): seq<byte> {
    [FRAME_END] + Escape(p) + [FRAME_END]
  }

  /** The serial line after one transmission per payload. */
  function Stream(ps: seq<seq<byte>>): seq<byte> {
    Flat(Frame, ps)
  }

  /** The output side of the serial port. */
  class SerialPort {
    var out: seq<byte>

    constructor ()
      ensures out == []
    {
      out := [];
    }

    method TxByte(c: byte)
      modifies this
      ensures out == old(out) + [c]
    {
      out := out + [c];
    }

    method Transmit(data: seq<byte>) returns (sent: nat)
      modifies this
      ensures out == old(out) + Frame(data)
      ensures sent == |data|
    {
      TxByte(FRAME_END);
      ghost var begun := out;
      for i := 0 to |data|
        invariant out == begun + Escape(data[..i])
      {
        var c := data[i];
        label before:
        if c == FRAME_END {
          TxByte(ESCAPE_END);
        } else if c == FRAME_ESCAPE {
          TxByte(ESCAPE_ESCAPE);
        }
        TxByte(c);
        assert out == old@before(out) + EscapeByte(c);
        Assoc(begun, Escape(data[..i]), EscapeByte(c));
        FlatSnoc(EscapeByte, data[..i], c);
        assert data[..i + 1] == data[..i] + [c];
      }
      assert data[..|data|] == data;
      TxByte(FRAME_END);
      Assoc(old(out), [FRAME_END], Escape(data));
      Assoc(old(out), [FRAME_END] + Escape(data), [FRAME_END]);
      return |data|;
    }
  }

  /** A stream is empty, or ends in the end marker. */
  lemma StreamEnds(ps: seq<seq<byte>>)
    ensures ps == [] ==> Stream(ps) == []
    ensures ps != [] ==> Stream(ps) != [] && Stream(ps)[|Stream(ps)| - 1] == FRAME_END
  {
  }

  /** The escaped form never starts with a byte that needs escaping. */
  lemma EscapeStart(p: seq<byte>)
    requires p != []
    ensures Escape(p) != [] && Escape(p)[0] != FRAME_END && Escape(p)[0] != FRAME_ESCAPE
  {
    FlatHead(EscapeByte, p);
  }

  function Count(p: seq<byte>, c: byte): nat {
    if p == [] then 0 else Count(p[..|p| - 1], c) + (if p[|p| - 1] == c then 1 else 0)
  }

  /** The cost of framing: two delimiters, and one byte per escaped byte. */
  lemma {:induction false} FrameLength(p: seq<byte>)
    ensures |Frame(p)| == |p| + 2 + Count(p, FRAME_END) + Count(p, FRAME_ESCAPE)
  {
    EscapeLength(p);
  }

  lemma {:induction false} EscapeLength(p: seq<byte>)
    ensures |Escape(p)| == |p| + Count(p, FRAME_END) + Count(p, FRAME_ESCAPE)
  {
    if p == [] {
    } else {
      EscapeLength(p[..|p| - 1]);
    }
  }

  // The bytes of a frame, in numbers.

  /** A frame begins and ends with 0xC0, and has the bytes of the payload in between. */
  lemma FrameEnds(p: seq<byte>)
    ensures |Frame(p)| == |p| + 2 + Count(p, 0xC0) + Count(p, 0xDB)
    ensures Frame(p)[0] == 0xC0 && Frame(p)[|Frame(p)| - 1] == 0xC0
    ensures p == [] ==> Frame(p) == [0xC0, 0xC0]
  {
    FrameLength(p);
  }

  /**
    Byte by byte: after the start marker and what the bytes before it took, 0xC0 gives DC C0,
    0xDB gives DD DB, and any other byte itself.
   */
  lemma FrameByte(p: seq<byte>, i: nat)
    requires i < |p|
    ensures var k, f := 1 + i + Count(p[..i], 0xC0) + Count(p[..i], 0xDB), Frame(p);
            && k + 1 < |f|
            && (p[i] == 0xC0 ==> f[k..k + 2] == [0xDC, 0xC0])
            && (p[i] == 0xDB ==> f[k..k + 2] == [0xDD, 0xDB])
            && (p[i] != 0xC0 && p[i] != 0xDB ==> f[k] == p[i])
  {
    FramePieces(p, i);
    var head, tail := p[..i], p[i + 1..];
    PieceAt([FRAME_END] + Escape(head), EscapeByte(p[i]), Escape(tail) + [FRAME_END], Frame(p));
  }

  /** A frame cut around the bytes that one byte of the payload takes. */
  lemma FramePieces(p: seq<byte>, i: nat)
    requires i < |p|
    ensures Frame(p) == [FRAME_END] + Escape(p[..i]) + EscapeByte(p[i]) + (Escape(p[i + 1..]) + [FRAME_END])
    ensures |Escape(p[..i])| == i + Count(p[..i], FRAME_END) + Count(p[..i], FRAME_ESCAPE)
  {
    var head, tail := p[..i], p[i + 1..];
    assert p == head + ([p[i]] + tail);
    FlatConcat(EscapeByte, head, [p[i]] + tail);
    FlatConcat(EscapeByte, [p[i]], tail);
    FlatOne(EscapeByte, p[i]);
    EscapeLength(head);
    Around([FRAME_END], Escape(head), EscapeByte(p[i]), Escape(tail));
  }

  lemma Around(e: seq<byte>, a: seq<byte>, b: seq<byte>, c: seq<byte>)
    ensures e + (a + (b + c)) + e == e + a + b + (c + e)
  {
  }

  lemma PieceAt(a: seq<byte>, b: seq<byte>, c: seq<byte>, s: seq<byte>)
    requires s == a + b + c
    ensures s[|a|..|a| + |b|] == b
  {
  }

  // One frame, read from the left.

  function Unescape(s: seq<byte>): seq<byte> {
    if s == [] then []
    else if |s| > 1 && s[0] == ESCAPE_END && s[1] == FRAME_END then [FRAME_END] + Unescape(s[2..])
    else if |s| > 1 && s[0] == ESCAPE_ESCAPE && s[1] == FRAME_ESCAPE then [FRAME_ESCAPE] + Unescape(s[2..])
    else [s[0]] + Unescape(s[1..])
  }

  /** Stripping the delimiters and undoing the two pairs gives the payload back. */
  lemma FrameRoundTrip(p: seq<byte>)
    ensures Unescape(Frame(p)[1..|Frame(p)| - 1]) == p
  {
    assert Frame(p)[1..|Frame(p)| - 1] == Escape(p);
    UnescapeEscape(p);
  }

  lemma {:induction false} UnescapeEscape(p: seq<byte>)
    ensures Unescape(Escape(p)) == p
  {
    if p == [] {
    } else {
      var c, rest := p[0], p[1..];
      UnescapeEscape(rest);
      FlatHead(EscapeByte, p);
      if rest != [] { EscapeStart(rest); }
      UnescapeOne(c, Escape(rest));
      assert p == [c] + rest;
    }
  }

  lemma UnescapeOne(c: byte, s: seq<byte>)
    requires s != [] ==> s[0] != FRAME_END && s[0] != FRAME_ESCAPE
    ensures Unescape(EscapeByte(c) + s) == [c] + Unescape(s)
  {
  }

  // Whole streams. Read from the left, an escaped `C0` and a literal `DC` before an end
  // marker begin alike; read from the right, one byte of context settles which it is.

  datatype Body = Body(payload: seq<byte>, before: seq<byte>)

  /**
    Reads a frame without its end marker from the right: its payload, and what comes
    before its start marker.
   */
  function ReadBody(s: seq<byte>): (r: Option<Body>)
    ensures r.Some? ==> |r.value.before| < |s|
  {
    if s == [] then None else
    var n := |s| - 1;
    if s[n] == FRAME_END then
      if n > 0 && s[n - 1] == ESCAPE_END then Append(ReadBody(s[..n - 1]), s[n])
      else Some(Body([], s[..n]))
    else if s[n] == FRAME_ESCAPE then
      if n > 0 && s[n - 1] == ESCAPE_ESCAPE then Append(ReadBody(s[..n - 1]), s[n])
      else None
    else Append(ReadBody(s[..n]), s[n])
  }

  function Append(r: Option<Body>, c: byte): Option<Body> {
    match r
    case None => None
    case Some(b) => Some(Body(b.payload + [c], b.before))
  }

  /** The payloads of a stream, or `None` for bytes that no list of payloads gives. */
  function ReadStream(s: seq<byte>): Option<seq<seq<byte>>>
    decreases |s|
  {
    if s == [] then Some([])
    else if s[|s| - 1] != FRAME_END then None
    else match ReadBody(s[..|s| - 1])
      case None => None
      case Some(b) =>
        match ReadStream(b.before)
        case None => None
        case Some(ps) => Some(ps + [b.payload])
  }

  /** One escaped byte at the end of a body. */
  lemma ReadBodySnoc(s: seq<byte>, c: byte)
    ensures ReadBody(s + EscapeByte(c)) == Append(ReadBody(s), c)
  {
  }

  lemma {:induction false} ReadBodyOfFrame(before: seq<byte>, p: seq<byte>)
    requires before != [] ==> before[|before| - 1] == FRAME_END
    ensures ReadBody(before + [FRAME_END] + Escape(p)) == Some(Body(p, before))
  {
    var begun := before + [FRAME_END];
    if p == [] {
      assert begun + Escape(p) == begun;
      SplitConcat(before, [FRAME_END]);
    } else {
      var front, c := p[..|p| - 1], p[|p| - 1];
      ReadBodyOfFrame(before, front);
      Assoc(begun, Escape(front), EscapeByte(c));
      ReadBodySnoc(begun + Escape(front), c);
      assert front + [c] == p;
    }
  }

  /** Reading inverts sending, for every list of payloads. */
  lemma {:induction false} StreamRoundTrip(ps: seq<seq<byte>>)
    ensures ReadStream(Stream(ps)) == Some(ps)
  {
    if ps == [] {
    } else {
      var front, p := ps[..|ps| - 1], ps[|ps| - 1];
      StreamRoundTrip(front);
      StreamEnds(front);
      ReadBodyOfFrame(Stream(front), p);
      FrameAfter(Stream(front), p);
      SplitConcat(Stream(front) + [FRAME_END] + Escape(p), [FRAME_END]);
      assert front + [p] == ps;
    }
  }

  lemma FrameAfter(s: seq<byte>, p: seq<byte>)
    ensures s + Frame(p) == s + [FRAME_END] + Escape(p) + [FRAME_END]
  {
  }

  lemma {:induction false} ReadBodySound(s: seq<byte>)
    ensures ReadBody(s).Some? ==> var b := ReadBody(s).value; b.before + [FRAME_END] + Escape(b.payload) == s
  {
    if s == [] || ReadBody(s).None? {
    } else {
      var n := |s| - 1;
      if s[n] == FRAME_END && !(n > 0 && s[n - 1] == ESCAPE_END) {
        assert s == s[..n] + [s[n]] + [];
      } else {
        var t := s[..|s| - |EscapeByte(s[n])|];
        ReadBodySound(t);
        var b := ReadBody(t).value;
        assert s == t + EscapeByte(s[n]);
        FlatSnoc(EscapeByte, b.payload, s[n]);
        Assoc(b.before + [FRAME_END], Escape(b.payload), EscapeByte(s[n]));
      }
    }
  }

  /** Sending inverts reading, on every byte sequence that is accepted. */
  lemma {:induction false} ReadStreamSound(s: seq<byte>)
    ensures ReadStream(s).Some? ==> Stream(ReadStream(s).value) == s
    decreases |s|
  {
    if s == [] || ReadStream(s).None? {
    } else {
      var t := s[..|s| - 1];
      var b := ReadBody(t).value;
      ReadBodySound(t);
      ReadStreamSound(b.before);
      FlatSnoc(Frame, ReadStream(b.before).value, b.payload);
      FrameAfter(b.before, b.payload);
      assert s == t + [FRAME_END];
    }
  }

  /** Different lists of payloads never give the same bytes. */
  lemma UniquelyDecodable(ps: seq<seq<byte>>, qs: seq<seq<byte>>)
    ensures Stream(ps) == Stream(qs) <==> ps == qs
  {
    StreamRoundTrip(ps);
    StreamRoundTrip(qs);
  }

  /** The accepted byte sequences are exactly the streams. */
  lemma AcceptedExactlyStreams(s: seq<byte>)
    ensures ReadStream(s).Some? <==> exists ps :: Stream(ps) == s
  {
    ReadStreamSound(s);
    if ps :| Stream(ps) == s {
      StreamRoundTrip(ps);
    }
  }

  function Empties(m: nat): seq<seq<byte>> {
    seq(m, _ => [])
  }

  /**
    No receiver that reads from the left can commit to a first payload: for every `m`
    there are two streams of more than `m` bytes with different first payloads, one of
    them a prefix of the other.
   */
  lemma NoBoundedLookahead(m: nat)
    ensures var ps, qs := [[ESCAPE_END]] + Empties(m), [[FRAME_END]] + Empties(m);
            && ps[0] != qs[0]
            && m < |Stream(ps)|
            && Stream(ps) < Stream(qs)
  {
    var tail := Stream(Empties(m));
    StreamOfEmpties(m);
    FirstThenEmpties([ESCAPE_END], m);
    FirstThenEmpties([FRAME_END], m);
    FlatOne(EscapeByte, ESCAPE_END);
    FlatOne(EscapeByte, FRAME_END);
    assert Frame([ESCAPE_END]) == [FRAME_END, ESCAPE_END, FRAME_END];
    assert Frame([FRAME_END]) == [FRAME_END, ESCAPE_END, FRAME_END, FRAME_END];
    PrefixOfRun([FRAME_END, ESCAPE_END, FRAME_END], tail, FRAME_END);
    assert [FRAME_END, ESCAPE_END, FRAME_END] + [FRAME_END] == Frame([FRAME_END]);
  }

  lemma FirstThenEmpties(p: seq<byte>, m: nat)
    ensures Stream([p] + Empties(m)) == Frame(p) + Stream(Empties(m))
  {
    FlatConcat(Frame, [p], Empties(m));
    FlatOne(Frame, p);
  }

  lemma PrefixOfRun(a: seq<byte>, tail: seq<byte>, c: byte)
    requires forall b :: b in tail ==> b == c
    ensures a + tail < a + [c] + tail
  {
    var s, t := a + tail, a + [c] + tail;
    assert forall i :: 0 <= i < |tail| ==> tail[i] in tail;
    assert forall i :: 0 <= i < |s| ==> s[i] == t[i];
  }

  lemma {:induction false} StreamOfEmpties(m: nat)
    ensures |Stream(Empties(m))| == 2 * m
    ensures forall b :: b in Stream(Empties(m)) ==> b == FRAME_END
  {
    if m == 0 {
    } else {
      StreamOfEmpties(m - 1);
      assert Empties(m)[..m - 1] == Empties(m - 1);
      assert Frame([]) == [FRAME_END, FRAME_END];
    }
  }
}
