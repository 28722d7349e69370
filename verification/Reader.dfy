/**
  A receiver's reading of what the stack puts on the wire: IPv4 headers by section 3.1 of
  RFC 791 and UDP headers by RFC 768, every field in network byte order.
 */
module Reader {
  import opened Bytes
  import opened Seqs
  import opened Csum
  import opened CsumLaws
  import opened Ipv4
  import opened Udp
  import IdRuns

  datatype IpView = IpView(tos: byte, id: word, dontFragment: bool, moreFragments: bool, offset: nat,
                           ttl: byte, proto: byte, src: seq<byte>, dst: seq<byte>, payload: seq<byte>)

  function NetWord(s: seq<byte>, i: nat): word
    requires i + 2 <= |s|
  {
    Load(BigEndian, s[i], s[i + 1])
  }

  /** Refuses a short packet, another version, bad lengths and a bad header checksum. */
  function ReadIp(s: seq<byte>): Option<IpView> {
    if |s| < HEADER_SIZE || s[0] / 0x10 != 4 then None else
    var header := s[0] % 0x10 * 4;
    var total := NetWord(s, 2);
    if header < HEADER_SIZE || total < header || |s| < total then None else
    if Checksum(BigEndian, s[..header]) != 0 then None else
    Some(IpView(s[1], NetWord(s, 4),
                NetWord(s, 6) / 0x4000 % 2 == 1, NetWord(s, 6) / 0x2000 % 2 == 1, NetWord(s, 6) % 0x2000,
                s[8], s[9], s[12..16], s[16..20], s[header..total]))
  }

  // Where the fields of the structure are in the bytes.

  lemma LayoutBytes(h: Raw)
    ensures var s := Layout(h);
            && s[0] == h.first && s[1] == h.tos
            && s[2..4] == Store(LittleEndian, h.len)
            && s[4..6] == Store(LittleEndian, h.id)
            && s[6..8] == Store(LittleEndian, h.flagsFoff)
            && s[8] == h.ttl && s[9] == h.ptcl
            && s[10..12] == Store(LittleEndian, h.csum)
            && s[12..16] == StoreDword(h.src)
            && s[16..20] == StoreDword(h.dst)
  {
  }

  /** The finished header in numbers, byte by byte but for the checksum. */
  lemma HeaderBytes(f: Fields, id: word)
    ensures var s := Header(f, id);
            && |s| == 20
            && s[0] == 0x45 && s[1] == f.tos
            && 0x100 * s[2] as int + s[3] as int == (20 + f.tlen) % 0x1_0000
            && s[4] == id % 0x100 && s[5] == id / 0x100
            && 0x100 * s[6] as int + s[7] as int == WithDontFragment(f.fOffVcf)
            && s[8] == f.ttl && s[9] == f.proto
            && f.src == s[12] as int + 0x100 * s[13] as int + 0x1_0000 * s[14] as int + 0x100_0000 * s[15] as int
            && f.dst == s[16] as int + 0x100 * s[17] as int + 0x1_0000 * s[18] as int + 0x100_0000 * s[19] as int
  {
    var s := Header(f, id);
    LayoutBytes(RawOf(f, id, Checksum(LittleEndian, Layout(RawOf(f, id, 0)))));
    HeaderWords(f, id);
    assert s[4..6][0] == s[4] && s[4..6][1] == s[5];
    FourBytes(s, 12, f.src);
    FourBytes(s, 16, f.dst);
  }

  lemma FourBytes(s: seq<byte>, i: nat, d: dword)
    requires i + 4 <= |s| && s[i..i + 4] == StoreDword(d)
    ensures d == s[i] as int + 0x100 * s[i + 1] as int + 0x1_0000 * s[i + 2] as int + 0x100_0000 * s[i + 3] as int
  {
    DwordOfBytes(d);
    var b := s[i..i + 4];
    assert b[0] == s[i] && b[1] == s[i + 1] && b[2] == s[i + 2] && b[3] == s[i + 3];
  }

  lemma LayoutPatch(h: Raw, c: word)
    ensures Layout(h.(csum := c)) == Patch(LittleEndian, Layout(h), CSUM_OFFSET, c)
  {
  }

  /**
    Every header verifies: the checksum over all its 20 bytes, the checksum field
    included, is 0, whichever byte order the words are taken in.
   */
  lemma HeaderVerifies(f: Fields, id: word)
    ensures Checksum(LittleEndian, Header(f, id)) == 0
    ensures Checksum(BigEndian, Header(f, id)) == 0
  {
    var h := RawOf(f, id, 0);
    var s := Layout(h);
    LayoutPatch(h, 0);
    LayoutPatch(h, Checksum(LittleEndian, s));
    SelfVerifies(LittleEndian, s, CSUM_OFFSET);
    ByteOrderIndependent(Header(f, id));
  }

  lemma NetWordOf(s: seq<byte>, i: nat, w: word)
    requires i + 2 <= |s| && s[i..i + 2] == Store(LittleEndian, w)
    ensures NetWord(s, i) == Bswap16(w)
  {
  }

  /** Bit 14 is set and every other bit is kept. */
  lemma FlagBits(f: word)
    ensures var w := WithDontFragment(f);
            && w / 0x4000 % 2 == 1
            && w / 0x8000 == f / 0x8000 && w / 0x2000 % 2 == f / 0x2000 % 2 && w % 0x2000 == f % 0x2000
  {
  }

  /** What a receiver should see of a header with these fields, and of the data behind it. */
  function ViewOf(f: Fields, id: word, data: seq<byte>): IpView {
    IpView(f.tos, IdRuns.OnWire(id), true, f.fOffVcf / 0x2000 % 2 == 1, f.fOffVcf % 0x2000,
           f.ttl, f.proto, StoreDword(f.src), StoreDword(f.dst), data)
  }

  lemma HeaderWords(f: Fields, id: word)
    ensures var s := Header(f, id);
            && NetWord(s, 2) == TotalLength(f)
            && NetWord(s, 4) == IdRuns.OnWire(id)
            && NetWord(s, 6) == WithDontFragment(f.fOffVcf)
  {
    var h := RawOf(f, id, Checksum(LittleEndian, Layout(RawOf(f, id, 0))));
    var s := Header(f, id);
    LayoutBytes(h);
    NetWordOf(s, 2, h.len);
    NetWordOf(s, 4, h.id);
    NetWordOf(s, 6, h.flagsFoff);
    BswapChangesByteOrder(TotalLength(f), 0, 0);
    BswapChangesByteOrder(WithDontFragment(f.fOffVcf), id % 0x100, id / 0x100);
  }

  /** A header and the data it announces read back as the fields it was made from. */
  lemma ReadBack(f: Fields, id: word, data: seq<byte>)
    requires HEADER_SIZE + |data| < 0x1_0000 && f.tlen == |data|
    ensures ReadIp(Header(f, id) + data) == Some(ViewOf(f, id, data))
  {
    var head := Header(f, id);
    HeaderVerifies(f, id);
    HeaderWords(f, id);
    LayoutBytes(RawOf(f, id, Checksum(LittleEndian, Layout(RawOf(f, id, 0)))));
    FlagBits(f.fOffVcf);
    ReadAhead(head, data);
  }

  /** A header of 20 bytes is read from its own bytes, whatever data follow. */
  lemma ReadAhead(head: seq<byte>, data: seq<byte>)
    requires |head| == HEADER_SIZE && head[0] == 0x45
    requires NetWord(head, 2) == HEADER_SIZE + |data| && Checksum(BigEndian, head) == 0
    ensures ReadIp(head + data) ==
            Some(IpView(head[1], NetWord(head, 4), NetWord(head, 6) / 0x4000 % 2 == 1,
                        NetWord(head, 6) / 0x2000 % 2 == 1, NetWord(head, 6) % 0x2000,
                        head[8], head[9], head[12..16], head[16..20], data))
  {
    var s := head + data;
    SplitConcat(head, data);
    assert s[..20] == head && s[20..20 + |data|] == data;
    assert NetWord(s, 2) == NetWord(head, 2) && NetWord(s, 4) == NetWord(head, 4) && NetWord(s, 6) == NetWord(head, 6);
    assert s[12..16] == head[12..16] && s[16..20] == head[16..20];
  }

  /**
    What a receiver sees of a datagram. The code always sets the don't-fragment flag, and
    the socket option of that name lands in the fragment offset instead.
   */
  function DatagramView(sock: Socket, src: dword, dst: dword, id: word, data: seq<byte>): IpView {
    IpView(0, IdRuns.OnWire(id), true, false, if sock.noFragment then 1 else 0, sock.ttl, sock.protocol % 0x100,
           StoreDword(src), StoreDword(dst), data)
  }

  lemma DatagramReadBack(sock: Socket, src: dword, dst: dword, id: word, data: seq<byte>)
    requires HEADER_SIZE + |data| < 0x1_0000
    ensures ReadIp(Datagram(sock, src, dst, id, data)) == Some(DatagramView(sock, src, dst, id, data))
  {
    var f := DatagramFields(sock, src, dst, |data|);
    assert ViewOf(f, id, data) == DatagramView(sock, src, dst, id, data);
    ReadBack(f, id, data);
  }

  /** An atomic datagram, section 4 of RFC 6864: not a fragment, and not to become one. */
  predicate Atomic(v: IpView) {
    v.dontFragment && !v.moreFragments && v.offset == 0
  }

  /** The option called `no_fragment` is what makes a datagram a fragment. */
  lemma FragmentIff(sock: Socket, src: dword, dst: dword, id: word, data: seq<byte>)
    ensures var v := DatagramView(sock, src, dst, id, data);
            && (v.offset != 0 <==> sock.noFragment)
            && (Atomic(v) <==> !sock.noFragment)
  {
  }

  /**
    What section 4.3 of RFC 6864 forbids of two datagrams in flight together. It binds
    datagrams that are not atomic, per source, destination and protocol.
   */
  predicate RepeatsId(a: IpView, b: IpView) {
    !Atomic(a) && !Atomic(b) && a.src == b.src && a.dst == b.dst && a.proto == b.proto && a.id == b.id
  }

  lemma PatchSame(s: seq<byte>, i: nat)
    requires i + 2 <= |s|
    ensures Patch(BigEndian, s, i, NetWord(s, i)) == s
  {
  }

  /**
    Changing any one word of a header after the first is noticed, unless it turns 0x0000
    into 0xFFFF or back, which no ones' complement checksum can tell apart.
   */
  lemma HeaderErrorNoticed(f: Fields, id: word, data: seq<byte>, i: nat, w: word)
    requires 2 <= i < HEADER_SIZE && i % 2 == 0 && w != NetWord(Header(f, id), i)
    ensures var v, s := NetWord(Header(f, id), i), Patch(BigEndian, Header(f, id), i, w);
            && (Checksum(BigEndian, s) == 0 <==> {v, w} == {0, 0xFFFF})
            && ({v, w} != {0, 0xFFFF} ==> ReadIp(s + data) == None)
  {
    var head := Header(f, id);
    var v, s := NetWord(head, i), Patch(BigEndian, head, i, w);
    HeaderVerifies(f, id);
    PatchSame(head, i);
    SingleWordError(BigEndian, head, i, v, w);
    LayoutBytes(RawOf(f, id, Checksum(LittleEndian, Layout(RawOf(f, id, 0)))));
    FirstByteCounts(Patch(BigEndian, head, i, 0));
    SplitConcat(s, data);
    assert (s + data)[0] == s[0] == head[0] == 0x45;
  }

  lemma FirstByteCounts(s: seq<byte>)
    requires |s| >= 2 && s[0] != 0
    ensures WordSum(BigEndian, s) != 0
  {
  }

  // UDP.

  datatype UdpView = UdpView(sport: word, dport: word, csum: word, payload: seq<byte>)

  /** Refuses a short datagram and a length field that does not fit it. */
  function ReadUdp(s: seq<byte>): Option<UdpView> {
    if |s| < UDP_SIZE || NetWord(s, 4) < UDP_SIZE || |s| < NetWord(s, 4) then None
    else Some(UdpView(NetWord(s, 0), NetWord(s, 2), NetWord(s, 6), s[UDP_SIZE..NetWord(s, 4)]))
  }
}
