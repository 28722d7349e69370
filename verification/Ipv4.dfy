/**
  IPv4 headers and datagrams: `create_ipv4_hdr` (without options) and
  `ipv4_transmit_datagram` of `src/ip.c`, on a little-endian host.
 */
module Ipv4 {
  import opened Bytes
  import opened Csum
  import opened IdSearch
  import opened IdTable
  import opened Slip
  import IdRuns

  const HEADER_SIZE: nat := 20
  const CSUM_OFFSET: nat := 10
  const DONT_FRAGMENT: nat := 0x40

  /** What a caller of `create_ipv4_hdr` chooses. */
  datatype Fields = Fields(src: dword, dst: dword, tos: byte, fOffVcf: word, ttl: byte, proto: byte, tlen: word)

  /** The disjunction of a flags word with `DONT_FRAGMENT << 8`, bit 14. */
  function WithDontFragment(f: word): word {
    if f / 0x4000 % 2 == 1 then f else f + DONT_FRAGMENT * 0x100
  }

  /** The fields of the header structure; `first` holds `version` and `ihl`. */
  datatype Raw = Raw(first: byte, tos: byte, len: word, id: word, flagsFoff: word,
                     ttl: byte, ptcl: byte, csum: word, src: dword, dst: dword)

  /** The packed structure in memory: the fields in order, each in host byte order. */
  function Layout(h: Raw): (s: seq<byte>)
    ensures |s| == HEADER_SIZE
  {
    LayoutStart(h) + Store(LittleEndian, h.csum) + LayoutEnd(h)
  }

  function LayoutStart(h: Raw): (s: seq<byte>)
    ensures |s| == CSUM_OFFSET
  {
    [h.first, h.tos] + Store(LittleEndian, h.len) + Store(LittleEndian, h.id)
    + Store(LittleEndian, h.flagsFoff) + [h.ttl, h.ptcl]
  }

  function LayoutEnd(h: Raw): (s: seq<byte>)
    ensures |s| == 8
  {
    StoreDword(h.src) + StoreDword(h.dst)
  }

  /** The total length field, in host order: 16 bits of the sum. */
  function TotalLength(f: Fields): word {
    (HEADER_SIZE + f.tlen) % 0x1_0000
  }

  /** What the code assigns, for a given identification and checksum. */
  function RawOf(f: Fields, id: word, csum: word): Raw {
    Raw(0x45, f.tos, Htons(TotalLength(f)), id, Htons(WithDontFragment(f.fOffVcf)),
        f.ttl, f.proto, csum, f.src, f.dst)
  }

  /** The finished header: the checksum is taken with its own field zero. */
  function Header(f: Fields, id: word): (s: seq<byte>)
    ensures |s| == HEADER_SIZE
  {
    Layout(RawOf(f, id, Checksum(LittleEndian, Layout(RawOf(f, id, 0)))))
  }

  type nibble = x: int | 0 <= x < 0x10

  /** The header structure, its fields assigned one by one. */
  class Hdr {
    var ihl: nibble
    var version: nibble
    var tos: byte
    var len: word
    var id: word
    var flagsFoff: word
    var ttl: byte
    var ptcl: byte
    var csum: word
    var src: dword
    var dst: dword

    /** `calloc` gives zeroed memory. */
    constructor ()
    {
      ihl, version, tos, len, id, flagsFoff := 0, 0, 0, 0, 0, 0;
      ttl, ptcl, csum, src, dst := 0, 0, 0, 0, 0;
    }

    /** The bit fields `ihl` and `version` share the first byte, `ihl` in the low half. */
    function Value(): Raw
      reads this
    {
      Raw(version * 0x10 + ihl, tos, len, id, flagsFoff, ttl, ptcl, csum, src, dst)
    }

    /** The assignments of `create_ipv4_hdr` before the identification is chosen. */
    method Fill(f: Fields)
      modifies this
      ensures Value() == RawOf(f, id, 0)
    {
      version := 4;
      ihl := HEADER_SIZE / 4;
      tos := f.tos;
      len := Htons(TotalLength(f));
      flagsFoff := Htons(WithDontFragment(f.fOffVcf));
      ttl := f.ttl;
      ptcl := f.proto;
      src := f.src;
      dst := f.dst;
      csum := 0;
    }
  }

  /**
    `create_ipv4_hdr`; `heapOk` says whether `calloc` gave memory. An identification is
    taken if and only if a header is made.
   */
  method CreateHdr(table: Table, f: Fields, random: nat, heapOk: bool) returns (iph: Hdr?)
    requires table.Valid()
    requires heapOk ==> Terminates(table.inUse, StartEntry(table.lastBlock, random))
    modifies table, table.used
    ensures table.Valid()
    ensures iph != null <==> heapOk
    ensures iph == null ==> table.inUse == old(table.inUse) && table.lastBlock == old(table.lastBlock)
    ensures iph != null ==>
      && fresh(iph)
      && table.lastBlock == NextBlock(old(table.lastBlock), random)
      && Allocate(old(table.inUse), StartEntry(old(table.lastBlock), random)) == Some(Allocation(iph.id, table.inUse))
      && iph.len == Htons(TotalLength(f))
      && Layout(iph.Value()) == Header(f, iph.id)
  {
    if !heapOk {
      return null;
    }
    iph := new Hdr();
    iph.Fill(f);
    ghost var rounds;
    iph.id, rounds := table.AllocateId(random);
    assert iph.Value() == RawOf(f, iph.id, 0);
    iph.csum, rounds := Compute(LittleEndian, Layout(iph.Value()));
    assert iph.Value() == RawOf(f, iph.id, iph.csum);
  }

  /** The socket options that reach the wire. */
  datatype Socket = Socket(ttl: byte, noFragment: bool, protocol: int)

  /** The header fields of a datagram that carries `n` bytes. */
  function DatagramFields(sock: Socket, src: dword, dst: dword, n: nat): Fields {
    Fields(src, dst, 0, if sock.noFragment then 1 else 0, sock.ttl, sock.protocol % 0x100, n % 0x1_0000)
  }

  function Datagram(sock: Socket, src: dword, dst: dword, id: word, data: seq<byte>): seq<byte> {
    Header(DatagramFields(sock, src, dst, |data|), id) + data
  }

  function OutcomeOf(heapOk: bool, bufferOk: bool): IdRuns.Outcome {
    if !heapOk then IdRuns.NoHeader else if !bufferOk then IdRuns.NoBuffer else IdRuns.Sent
  }

  /**
    How a transmission ends. The packet buffer has the size that the 16-bit total length
    field says; where header and data are longer, the C code copies past its end and its
    behaviour is undefined from there on.
   */
  datatype Result = Done(sent: nat) | Failed | Overrun

  /** Header and data fit the buffer that the total length field gives them. */
  predicate Fits(n: nat) {
    HEADER_SIZE + n < 0x1_0000
  }

  /**
    `ipv4_transmit_datagram` over the serial link. A copy past the buffer ends the model of
    the call where it happens: with the identification taken and nothing sent.
   */
  method TransmitDatagram(table: Table, port: SerialPort, sock: Socket, src: dword, dst: dword, data: seq<byte>,
                          random: nat, heapOk: bool, bufferOk: bool)
    returns (r: Result, ghost id: word)
    requires table.Valid()
    requires heapOk ==> Terminates(table.inUse, StartEntry(table.lastBlock, random))
    modifies table, table.used, port
    ensures table.Valid()
    ensures r == if !heapOk || !bufferOk then Failed
                 else if Fits(|data|) then Done(HEADER_SIZE + |data|) else Overrun
    ensures IdRuns.Transmit(old(table.inUse),
                            IdRuns.Call(StartEntry(old(table.lastBlock), random),
                                        OutcomeOf(heapOk, bufferOk && Fits(|data|))))
            == Some(table.inUse)
    ensures table.lastBlock == if heapOk then NextBlock(old(table.lastBlock), random) else old(table.lastBlock)
    ensures !r.Done? ==> port.out == old(port.out)
    ensures r.Done? ==>
      && port.out == old(port.out) + Frame(Datagram(sock, src, dst, id, data))
      && HandsOut(old(table.inUse), StartEntry(old(table.lastBlock), random), id)
  {
    r, id := Failed, 0;
    ghost var before, start := table.inUse, StartEntry(table.lastBlock, random);
    var f := DatagramFields(sock, src, dst, |data|);
    var iph := CreateHdr(table, f, random, heapOk);
    if iph != null {
      id := iph.id;
      Outcomes(before, start, Allocation(id, table.inUse));
      if bufferOk {
        r := SendPacket(table, port, iph, data, f);
      }
    }
  }

  /** The end of `ipv4_transmit_datagram`: fill the packet buffer, send it, release the identification. */
  method SendPacket(table: Table, port: SerialPort, iph: Hdr, data: seq<byte>, ghost f: Fields)
    returns (r: Result)
    requires table.Valid()
    requires f.tlen == |data| % 0x1_0000 && iph.len == Htons(TotalLength(f))
    modifies table`inUse, table.used, port
    ensures table.Valid()
    ensures r == if Fits(|data|) then Done(HEADER_SIZE + |data|) else Overrun
    ensures r.Done? ==> table.inUse == old(table.inUse) - {iph.id}
    ensures r.Done? ==> port.out == old(port.out) + Frame(Layout(iph.Value()) + data)
    ensures !r.Done? ==> table.inUse == old(table.inUse) && port.out == old(port.out)
  {
    var size := Ntohs(iph.len);
    BswapChangesByteOrder(TotalLength(f), 0, 0);
    LengthWraps(|data|, f);
    if size < HEADER_SIZE + |data| {
      return Overrun;
    }
    var packet := Layout(iph.Value()) + data;
    assert packet[..size] == packet;
    var n := port.Transmit(packet[..size]);
    table.FreeId(iph.id);
    return Done(n);
  }

  lemma LengthWraps(n: nat, f: Fields)
    requires f.tlen == n % 0x1_0000
    ensures TotalLength(f) == (20 + n) % 0x1_0000
    ensures TotalLength(f) <= HEADER_SIZE + n
    ensures TotalLength(f) == HEADER_SIZE + n <==> Fits(n)
  {
  }

  lemma Outcomes(used: set<nat>, start: nat, a: Allocation)
    requires start < MODULUS && Allocate(used, start) == Some(a)
    ensures IdRuns.Transmit(used, IdRuns.Call(start, IdRuns.NoBuffer)) == Some(a.used)
    ensures IdRuns.Transmit(used, IdRuns.Call(start, IdRuns.Sent)) == Some(a.used - {a.id})
  {
  }
}
