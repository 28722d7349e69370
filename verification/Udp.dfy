/** UDP datagrams: `create_udp_hdr` and `udp_send` of `src/udp.c`. */
module Udp {
  import opened Bytes
  import opened IdSearch
  import opened IdTable
  import opened Slip
  import opened Ipv4
  import IdRuns

  const UDP_SIZE: nat := 8

  /** The longest payload whose datagram length fits the 16-bit total length field. */
  const MAX_PAYLOAD: nat := 65507

  /** The header in memory, its four fields in order. */
  function UdpLayout(src: word, dst: word, len: word, csum: word): (s: seq<byte>)
    ensures |s| == UDP_SIZE
  {
    Store(LittleEndian, src) + Store(LittleEndian, dst) + Store(LittleEndian, len) + Store(LittleEndian, csum)
  }

  /** The length field, in host order: 16 bits of the sum. */
  function UdpLength(n: nat): word {
    (n % 0x1_0000 + UDP_SIZE) % 0x1_0000
  }

  function Segment(sport: word, dport: word, data: seq<byte>): seq<byte> {
    UdpLayout(Htons(sport), Htons(dport), Htons(UdpLength(|data|)), Htons(0)) + data
  }

  class UdpHdr {
    var src: word
    var dst: word
    var len: word
    var csum: word

    /** `create_udp_hdr`: all four fields; the checksum is not computed. */
    constructor Create(sport: word, dport: word, length: word)
      ensures src == Htons(sport) && dst == Htons(dport)
      ensures len == Htons(UdpLength(length)) == BufferAsked(length) && csum == Htons(0)
    {
      assert (length + UDP_SIZE) % 0x1_0000 == UdpLength(length);
      dst := Htons(dport);
      src := Htons(sport);
      len := Htons((length + UDP_SIZE) % 0x1_0000);
      csum := Htons(0);
    }

    function Bytes(): seq<byte>
      reads this
    {
      UdpLayout(src, dst, len, csum)
    }
  }

  /** The size that `udp_send` asks `realloc` for: the length field, which is already byte-swapped. */
  function BufferAsked(n: nat): word {
    Htons(UdpLength(n))
  }

  /** The UDP length in numbers. */
  lemma UdpLengthIs(n: nat)
    ensures UdpLength(n) == (8 + n) % 0x1_0000
  {
  }

  /** The size asked for in numbers: the low byte of the length is its high byte, and the other way round. */
  lemma BufferAskedIs(n: nat)
    ensures BufferAsked(n) == 0x100 * ((8 + n) % 0x100) + (8 + n) % 0x1_0000 / 0x100
    ensures 8 + n < 0x1_0000 ==> BufferAsked(n) == 0x100 * ((8 + n) % 0x100) + (8 + n) / 0x100
  {
    UdpLengthIs(n);
    LowByte(8 + n);
  }

  lemma LowByte(n: nat)
    ensures n % 0x1_0000 % 0x100 == n % 0x100
  {
  }

  /**
    That is enough for header and payload exactly when the length fits 16 bits and its high
    byte is not above its low byte. 248 bytes of payload are the least for which it is not:
    the length is then 256, and one byte is asked for.
   */
  lemma BufferAskedIff(n: nat)
    ensures UDP_SIZE + n <= BufferAsked(n) <==>
            UDP_SIZE + n < 0x1_0000 && (UDP_SIZE + n) / 0x100 <= (UDP_SIZE + n) % 0x100
    ensures n < 248 ==> UDP_SIZE + n <= BufferAsked(n)
    ensures BufferAsked(248) == 1
  {
    if UDP_SIZE + n < 0x1_0000 {
      BufferAskedIs(n);
      SwappedAtLeast(UDP_SIZE + n);
    }
  }

  lemma SwappedAtLeast(l: nat)
    requires l < 0x1_0000
    ensures l <= 0x100 * (l % 0x100) + l / 0x100 <==> l / 0x100 <= l % 0x100
  {
  }

  /**
    `udp_send` over the serial link, as the construction and transmission of a packet. An
    identification is used and released on the way; nothing goes out unless all goes out.

    The block from `realloc` holds what the length field of the header asked for, and may
    hold `spare` bytes more. Where it does not hold header and payload, the copy of the
    payload ends the model of the call, before an identification is taken.
   */
  method UdpSend(table: Table, port: SerialPort, sock: Socket, src: dword, dst: dword, sport: word, dport: word,
                 data: seq<byte>, random: nat, reallocOk: bool, spare: nat, heapOk: bool, bufferOk: bool)
    returns (r: Result, ghost id: word)
    requires table.Valid()
    requires reallocOk && UDP_SIZE + |data| <= BufferAsked(|data|) + spare && heapOk ==>
      Terminates(table.inUse, StartEntry(table.lastBlock, random))
    modifies table, table.used, port
    ensures table.Valid()
    ensures r == if !reallocOk then Failed
                 else if BufferAsked(|data|) + spare < UDP_SIZE + |data| then Overrun
                 else if !heapOk || !bufferOk then Failed
                 else if |data| <= MAX_PAYLOAD then Done(HEADER_SIZE + UDP_SIZE + |data|) else Overrun
    ensures IdRuns.Transmit(old(table.inUse),
                            IdRuns.Call(StartEntry(old(table.lastBlock), random),
                                        UdpOutcome(|data|, reallocOk, spare, heapOk, bufferOk)))
            == Some(table.inUse)
    ensures table.lastBlock ==
            if UdpOutcome(|data|, reallocOk, spare, heapOk, bufferOk).NoHeader? then old(table.lastBlock)
            else NextBlock(old(table.lastBlock), random)
    ensures r.Done? <==> UdpOutcome(|data|, reallocOk, spare, heapOk, bufferOk).Sent?
    ensures !r.Done? ==> port.out == old(port.out)
    ensures r.Done? ==>
      && port.out == old(port.out) + Frame(Datagram(sock, src, dst, id, Segment(sport, dport, data)))
      && HandsOut(old(table.inUse), StartEntry(old(table.lastBlock), random), id)
  {
    var uhdr := new UdpHdr.Create(sport, dport, |data| % 0x1_0000);
    r, id := Failed, 0;
    if reallocOk {
      var packet := uhdr.Bytes() + data;
      UdpLengthTruncated(|data|);
      assert packet == Segment(sport, dport, data);
      var capacity := uhdr.len + spare;
      if capacity < |packet| {
        return Overrun, 0;
      }
      r, id := TransmitDatagram(table, port, sock, src, dst, packet, random, heapOk, bufferOk);
    }
  }

  /** How far a call gets: to a header only if the payload was copied, to the link only if it fits. */
  function UdpOutcome(n: nat, reallocOk: bool, spare: nat, heapOk: bool, bufferOk: bool): IdRuns.Outcome {
    OutcomeOf(reallocOk && UDP_SIZE + n <= BufferAsked(n) + spare && heapOk, bufferOk && n <= MAX_PAYLOAD)
  }

  /** Passing the length as 16 bits changes nothing: the field keeps no more. */
  lemma UdpLengthTruncated(n: nat)
    ensures UdpLength(n % 0x1_0000) == UdpLength(n)
  {
  }
}
