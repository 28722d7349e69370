# usernetstack: a verified model of its transmit path

This project models the transmit side of a small user-space IPv4/UDP stack and proves what
that code does: the table of IPv4 identifications in use, the Internet checksum, the IPv4
and UDP headers, dotted-decimal addresses, and the framing of packets on a serial line.
`dafny verify dfyconfig.toml` checks all of it.

The host is little-endian with a 64-bit `unsigned long`. What `rand()` gives, and whether the
allocations of `create_ipv4_hdr`, `ipv4_transmit_datagram` and the `realloc` of `udp_send` succeed
and how much the last one gives, are parameters, and every result holds for all their values. The serial port is the sequence of
bytes sent to it.

| file | models |
|---|---|
| `Seqs.dfy` | sequence facts shared by the encoders |
| `Bytes.dfy` | bytes, words, byte order, `bswap_16`, `htons`, `ntohs` |
| `Bitmap.dfy` | the bitmap, and the set it stands for |
| `IdSearch.dfy` | the search loop of `allocate_ipv4_id`: when it ends, what it finds, how many fit |
| `IdTable.dfy` | the static table of `src/ip.c` and the functions that change it |
| `IdRuns.dfy` | runs of allocations, releases and transmissions |
| `Csum.dfy`, `CsumLaws.dfy` | the checksum code, and the laws of RFC 1071 for it |
| `Slip.dfy`, `SlipReceiver.dfy` | the framing as emitted, its decoder, and an RFC 1055 receiver |
| `InetAddr.dfy` | `inet_addr` over `strtok` and `atoi` |
| `Ipv4.dfy`, `Udp.dfy` | headers, `ipv4_transmit_datagram`, `udp_send` |
| `Reader.dfy`, `Delivery.dfy` | a receiver of headers, and one that knows the code's own framing |
| `Interop.dfy` | a receiver by RFC 1055, RFC 791 and RFC 768 |
| `Stack.dfy` | the whole stack over whole runs |

The main results:

- **The search for an identification** steps by 3 modulo 65535, so it stays in one residue class.
  It ends if and only if that class holds a free nonzero identification, within 21846 rounds, with
  the first one in probe order. Up to 21843 live identifications no start can hang; 21844 can, and
  a run reaches that state.
- **Over every run** live identifications are distinct (also on the wire), and the marks that stay
  behind are exactly as many as the transmissions that got a header but no packet buffer.
- **The checksum** equals ones' complement addition of the words in any order and any even split,
  does not depend on the byte order of the host for an even length, and makes every header verify.
- **The framing** is uniquely decodable over whole streams, although no receiver that reads from
  the left can commit to a first payload after any bounded number of bytes.
- **End to end** (`Stack.RunDelivers`): every run of `udp_send` calls with at most 21843 buffer
  failures completes, and the serial line holds exactly the messages of the calls that succeeded, in
  order and intact. A receiver that knows the code's own framing and has the whole line delivers
  those that are UDP and do not set `no_fragment`. A receiver by the standards (RFC 1055, RFC 791,
  RFC 768) delivers exactly what was sent if and only if every message is of that kind and, besides,
  no packet holds a byte `C0` or `DB`, header included; an address with an octet of 192 or 219 is
  enough to lose one (`Interop.StandardDeliveryIff`, `AddressLosesPacket`). All this is for calls in
  which the block that `realloc` gave holds header and payload; see the next list.

Where the code departs from its comments or from a standard, the model follows the code, and a
lemma says exactly when the two agree:

- `slip_transmit` sends `DC C0` and `DD DB` where the "PROTOCOL" section of RFC 1055 asks for
  `DB DC` and `DB DD`. The two framings agree, and an RFC 1055 receiver gets the payloads, exactly
  when no payload holds `C0` or `DB` (`StreamReceivedIffClean`, `FrameIsStandardIffClean`).
- `udp_send` asks `realloc` for the length field after it was byte-swapped. That is enough for header
  and payload exactly when the length fits 16 bits and its high byte is not above its low byte; 248
  bytes of payload are the least for which it is not (`BufferAskedIff`).
- For an odd length, `csum` on a little-endian host puts the padding zero before the last byte. The
  result is that of RFC 1071 exactly when the last byte is 0 (`OddLengthStandardIff`).
- The comment on `allocate_ipv4_id` names RFC 6864. Section 4.3 forbids repeating an identification
  between datagrams in flight that are not atomic and agree in source, destination and protocol. A
  datagram of this stack always has the don't-fragment flag and never the more-fragments flag, so it
  is not atomic exactly when `no_fragment` put 1 in its fragment offset (`FragmentIff`). The code
  releases an identification as soon as its datagram is handed to the link, and a later search finds
  it again exactly when it starts in the same residue class and meets nothing free before it
  (`ReleasedIdIsReused`, `ReusedAfterAnyRun`); while nothing has leaked, exactly when it starts in the
  same block (`SameBlockSharesId`). `SendsRepeatIdIff` puts this together: when two sends do what
  section 4.3 forbids.
- A transmission without a packet buffer never releases its identification (`MarkedAreLeaked`).
- Every datagram has the don't-fragment flag; the socket option `no_fragment` ends up in the
  fragment offset, as 1 (`DatagramReadBack`), and a receiver then holds the datagram back as the tail
  of a larger one: it is delivered exactly when the option is off and the protocol is UDP
  (`DeliveredIff`).

## Model

| member | source | states |
|---|---|---|
| `Bytes.BswapBitsAgree` | src/include/data_util.h:50-55 | the mask-and-shift expression of `bswap_16` swaps the two bytes of every 16-bit number |
| `Bytes.BswapChangesByteOrder` | src/include/data_util.h:78-89 | a swap is its own inverse, and `htons` followed by a little-endian store leaves the bytes in network order |
| `Bitmap.Set` | src/include/bitmap.h:28-30 | in place, changes one byte; the set of entries gains exactly that entry |
| `Bitmap.Clear` | src/include/bitmap.h:33-35 | in place, changes one byte; the set of entries loses exactly that entry |
| `Bitmap.GetAfterSet` | src/include/bitmap.h:23-30 | after a set, an entry reads as set if it is that entry or was set before, in the same byte or another |
| `Bitmap.GetAfterClear` | src/include/bitmap.h:23-35 | after a clear, an entry reads as set if it is another entry and was set before |
| `Bitmap.SetInserts` | src/include/bitmap.h:28-30 | on the set of entries, for every bitmap length, setting is insertion |
| `Bitmap.ClearRemoves` | src/include/bitmap.h:33-35 | on the set of entries, for every bitmap length, clearing is removal |
| `Bitmap.BitOfEntry` | src/include/bitmap.h:13-20 | entry `8 * i + j` is bit `j` of byte `i`: setting it in a zero byte leaves 2 to the power `j` |
| `Bitmap.ZeroedIsEmpty` | src/ip.c:69-70 | zeroed memory stands for the empty set |
| `Csum.AddWords` | src/csum.c:75-85 | the word loop and the odd byte give the sum of the words modulo 2^64 |
| `Csum.Compute` | src/csum.c:74-92 | the code computes the complement of the folded sum, exactly the checksum up to 2^49 bytes, in as many rounds as `FoldRounds` says |
| `Csum.FoldRound` | src/csum.c:87-89 | a round of the fold loop makes the sum strictly smaller, keeps it modulo 65535 and keeps it from becoming 0 |
| `Csum.AtMostTwoRounds` | src/csum.c:75-89 | buffers of at most 65535 bytes need at most two rounds and do not overflow the accumulator |
| `Csum.FoldIsResidue` | src/csum.c:87-89 | folding gives the representative modulo 65535 that is 0 only for the sum 0 |
| `CsumLaws.OrderIndependent` | src/csum.c:77-91 | the checksum is the complement of adding the words one by one with end-around carry, in any order |
| `CsumLaws.EvenSplit` | src/csum.c:77-89 | sums of pieces cut at an even offset combine with end-around carry |
| `CsumLaws.ByteOrderIndependent` | src/csum.c:74-92 | for an even length the two byte orders give swapped checksums, so the two bytes stored are the same on every host |
| `CsumLaws.SwappedWords` | src/csum.c:74-92 | the checksum of the byte-swapped words is `bswap_16` of the checksum of the words |
| `CsumLaws.OddBigEndian` | src/csum.c:81-85 | with big-endian words, an odd length counts as if a zero byte came after it |
| `CsumLaws.OddLittleEndian` | src/csum.c:81-85 | with little-endian words, an odd length counts as if a zero byte came before its last byte |
| `CsumLaws.OddLengthStandardIff` | src/csum.c:81-85 | the bytes a little-endian host stores for an odd length are those of RFC 1071 if and only if the last byte is 0 |
| `CsumLaws.AcceptedIff` | src/csum.c:74-92 | which words in a checksum field make a buffer verify: the checksum itself, and 0xFFFF where that is 0 |
| `CsumLaws.SelfVerifies` | src/ip.c:191-201 | a checksum taken with its field zero and stored there makes the whole buffer sum to 0 |
| `CsumLaws.SingleWordError` | src/csum.c:74-92 | changing one word of a verifying buffer goes unnoticed only between 0x0000 and 0xFFFF |
| `Slip.SerialPort.Transmit` | src/slip.c:58-77 | the line grows by the frame of the data, and the length is returned |
| `Slip.FrameEnds` | src/slip.c:60-74 | in numbers: a frame begins and ends with 0xC0, and how long it is |
| `Slip.FrameByte` | src/slip.c:62-73 | in numbers, at its place for every byte of the payload: 0xC0 goes out as DC C0, 0xDB as DD DB, any other byte as itself |
| `Slip.FrameLength` | src/slip.c:60-76 | a frame is two bytes longer than its payload, plus one for each `C0` and each `DB` |
| `Slip.FrameRoundTrip` | src/slip.c:60-76 | stripping the delimiters and undoing the two pairs recovers every payload |
| `Slip.StreamRoundTrip` | src/slip.c:58-77 | reading a stream from the right gives back every list of payloads |
| `Slip.ReadStreamSound` | src/slip.c:58-77 | every byte sequence the reader accepts is the stream of what it returns |
| `Slip.UniquelyDecodable` | src/slip.c:58-77 | two lists of payloads give the same bytes if and only if they are the same list |
| `Slip.AcceptedExactlyStreams` | src/slip.c:58-77 | the reader accepts exactly the byte sequences that transmissions produce |
| `Slip.NoBoundedLookahead` | src/slip.c:62-74 | for every bound there are longer streams with different first payloads, one a prefix of the other |
| `SlipReceiver.FirstPacketIffClean` | src/slip.c:62-74 | the first packet an RFC 1055 receiver gets from the frame of a non-empty payload, whatever bytes follow it, is that payload if and only if it holds neither `C0` nor `DB` |
| `SlipReceiver.StreamReceivedIffClean` | src/slip.c:58-77 | over a whole run, an RFC 1055 receiver gets the non-empty payloads if and only if none holds `C0` or `DB` |
| `SlipReceiver.StandardFrameReceived` | src/include/slip.h:42-45 | the modelled receiver undoes the framing of RFC 1055 for every payload |
| `SlipReceiver.StandardFrameBytes` | src/include/slip.h:42-45 | the framing of RFC 1055 in numbers, byte by byte |
| `SlipReceiver.ReceiverStep` | src/include/slip.h:42-45 | the receiver of RFC 1055 in numbers, byte by byte |
| `SlipReceiver.FrameIsStandardIffClean` | src/slip.c:62-74 | the code frames a payload as RFC 1055 does if and only if nothing in it needs escaping |
| `SlipReceiver.FrameMakes` | src/slip.c:58-77 | what an RFC 1055 receiver makes of any frame: a packet as long as the payload is the only one, and is the payload byte by byte, the damaged bytes at known places |
| `IdSearch.VisitStaysInClass` | src/ip.c:122-122 | the search never leaves the residue class of its start modulo 3 |
| `IdSearch.VisitCovers` | src/ip.c:122-122 | in 21845 steps it visits every entry of that class exactly once |
| `IdSearch.SearchFinds` | src/ip.c:110-125 | with a free identification in the class the loop ends, within 21846 rounds, at the first one in probe order, and marks it, 0 if it was met, and nothing else |
| `IdSearch.SearchHangs` | src/ip.c:117-124 | without one the loop holds no identification after any number of rounds |
| `IdSearch.TerminatesIff` | src/ip.c:117-124 | from any start below 65535 the loop ends if and only if the start's class has a free nonzero identification |
| `IdSearch.TerminatesInNumbers` | src/ip.c:117-124 | the same in numbers: some nonzero entry below 65535, congruent to the start modulo 3, is free |
| `IdSearch.AllocateGives` | src/ip.c:117-125 | what is handed out was free, is in 1..65534 and in the start's class, and is the only nonzero mark added |
| `IdSearch.AllocatesIff` | src/ip.c:117-125 | an identification is handed out if and only if it is free, in the start's class, and nothing visited before it ends the search |
| `IdSearch.CapacitySuffices` | src/ip.c:112-124 | with at most 21843 nonzero marks every start finds a free identification |
| `IdSearch.CapacityIsTight` | src/ip.c:112-124 | with all 21844 nonzero multiples of 3 marked, every start divisible by 3 hangs while 43690 identifications are free |
| `IdTable.StartEntry` | src/ip.c:111-113 | a search starts at a multiple of 8 below 65535 |
| `IdTable.NextBlockIs` | src/ip.c:112-115 | the new block is below 1024 and congruent to last block plus `rand()` modulo 1024; the search starts at 8 times it |
| `IdTable.Table.Initialise` | src/ip.c:65-72 | a fresh table has nothing in use |
| `IdTable.Table.ProbeEntry` | src/ip.c:118-123 | the loop body on the bitmap is one round of the search on the set |
| `IdTable.Table.FindFree` | src/ip.c:117-124 | the loop on the bitmap computes the allocation, in at most 21846 rounds |
| `IdTable.Table.AllocateId` | src/ip.c:95-129 | new block (in numbers), new set of marks and identification, of the search begun at 8 times that block, for every value of `rand()` |
| `IdTable.Table.FreeId` | src/ip.c:139-141 | exactly that identification is no longer in use |
| `IdTable.SomeStartHangsIff` | src/ip.c:111-124 | some value of `rand()` makes the next call hang if and only if one of the three classes is full |
| `IdRuns.StepConsistent` | src/ip.c:95-141 | every allocation and release keeps the marks equal to the live identifications, each once, and possibly 0 |
| `IdRuns.Fresh` | src/ip.c:65-72 | `ip_initialise` gives the state that runs start from |
| `IdRuns.AcquireStep` | src/ip.c:95-129 | `allocate_ipv4_id` is the step of a run that acquires from 8 times the new block, whatever is live |
| `IdRuns.ReleaseStep` | src/ip.c:139-141 | `free_ipv4_id` of a live identification is the step of a run that releases it |
| `IdRuns.RunConsistent` | src/ip.c:95-141 | so does every run |
| `IdRuns.OnWireInjective` | src/ip.c:125-125 | identifications stored without `htons` stay distinct and nonzero when read big-endian |
| `IdRuns.LiveIdsAreUnique` | src/ip.c:95-141 | in every reachable state live identifications are distinct, in 1..65534, exactly the nonzero marks, and distinct on the wire |
| `IdRuns.NeverHangsBelowCapacity` | src/ip.c:112-124 | in every reachable state with at most 21843 live identifications every allocation ends |
| `IdRuns.CapacityIsReached` | src/ip.c:112-124 | 21844 allocations from block 0 reach a state in which every start divisible by 3 hangs |
| `IdRuns.TransmitConserves` | src/ip.c:234-259 | a transmission without a packet buffer keeps one more mark; any other leaves the nonzero marks as they were |
| `IdRuns.MarkedAreLeaked` | src/ip.c:234-259 | after any run from a fresh table the nonzero marks number the transmissions that got a header but no buffer |
| `IdRuns.TransmitsComplete` | src/ip.c:234-259 | runs with at most 21843 of those always complete |
| `IdRuns.LeakingIsAcquiring` | src/ip.c:243-247 | transmissions without a buffer use up the table as allocations do |
| `IdRuns.LeaksCanHang` | src/ip.c:243-247 | 21844 of them from block 0, and the next transmission from there never returns |
| `IdRuns.MarksKept` | src/ip.c:234-259 | runs of transmissions that all get a buffer leave the nonzero marks as they were |
| `IdRuns.ReleasedIdIsReused` | src/ip.c:254-256 | after a transmission and any others that get a buffer, a later search hands out the same identification if and only if it starts in the same class and meets nothing free before it |
| `IdRuns.ReusedAfterAnyRun` | src/ip.c:254-256 | the same with failing transmissions in between, on the marks the later search meets |
| `IdRuns.SameBlockSharesId` | src/ip.c:110-125 | while nothing has leaked, two transmissions share an identification if and only if they start in the same block |
| `InetAddr.Parse` | src/data_util.c:49-64 | for every string: 0 without tokens, a null token with one to three, and otherwise the first four octets, the first in the low byte |
| `InetAddr.StrTok` | src/data_util.c:52-60 | a token is never empty, and each one shortens what is left |
| `InetAddr.TokensPartition` | src/data_util.c:52-60 | the tokens of any string hold no dot and together hold every other character, in order |
| `InetAddr.TokensJoin` | src/data_util.c:52-60 | non-empty fields without dots, joined by dots, come back as the tokens |
| `InetAddr.TokensSpread` | src/data_util.c:52-60 | fields with any dots before, between and after them come back as the tokens |
| `InetAddr.EveryStringIsSpread` | src/data_util.c:52-60 | every string is of that form |
| `InetAddr.AtoiDecimal` | src/data_util.c:58-58 | `atoi` reads the value of a decimal numeral |
| `InetAddr.ValueIs` | src/data_util.c:58-58 | the decimal value in numbers |
| `InetAddr.AtoiReads` | src/data_util.c:58-58 | `atoi` skips white space, takes one sign, and reads the digits up to the first other character |
| `InetAddr.EveryStringIsNumeric` | src/data_util.c:58-58 | every string is white space, sign, digits and a rest, so that is all that `atoi` does |
| `InetAddr.AddressBytes` | src/data_util.c:57-61 | the bytes of the address in memory are the first four fields, in order |
| `InetAddr.DecimalAddress` | src/data_util.c:57-61 | decimal fields give their values modulo 256, in order |
| `InetAddr.NumericAddress` | src/data_util.c:57-61 | fields of that form give the numbers they begin with, modulo 256, in order |
| `InetAddr.TooFewFields` | src/data_util.c:52-61 | one to three fields run out of tokens, and none gives 0 |
| `InetAddr.PrintRoundTrip` | src/data_util.c:49-64 | parsing the dotted-decimal print of any address gives that address |
| `Ipv4.Hdr.Fill` | src/ip.c:182-191 | the assigned fields, with the 16-bit total length and the flags in network order |
| `Ipv4.CreateHdr` | src/ip.c:159-204 | null and an unchanged table without memory; otherwise the finished header and exactly the allocation's effect on the table |
| `Ipv4.SendPacket` | src/ip.c:241-258 | where header and data fit the total length field they go out as one frame and the identification is released; where they do not, the copy overruns the buffer |
| `Ipv4.TransmitDatagram` | src/ip.c:226-260 | for each way to end: what went out, the new marks and the new block; the buffer is overrun exactly when header and data exceed 65535 bytes |
| `Reader.HeaderVerifies` | src/ip.c:182-201 | the checksum over all 20 bytes of every header is 0, in both byte orders |
| `Reader.HeaderBytes` | src/ip.c:182-201 | the bytes of the finished header in numbers, the identification in host order and the rest in network order |
| `Reader.FlagBits` | src/ip.c:186-186 | the don't-fragment bit is set and every other bit of the flags word is kept |
| `Reader.HeaderWords` | src/ip.c:182-192 | what a receiver reads as total length, identification and flags |
| `Reader.ReadBack` | src/ip.c:182-201 | a checking reader of RFC 791 headers recovers every field and the data |
| `Reader.DatagramReadBack` | src/ip.c:229-251 | what a receiver sees of a datagram, the misplaced `no_fragment` option included |
| `Reader.FragmentIff` | src/ip.c:186-235 | a datagram has a fragment offset, and so is not atomic, if and only if `no_fragment` is set |
| `Reader.HeaderErrorNoticed` | src/ip.c:201-201 | a change to any one word after the first is refused, unless it is between 0x0000 and 0xFFFF |
| `Delivery.SegmentWords` | src/udp.c:55-74 | what a receiver reads as ports, length and checksum, for every payload length |
| `Delivery.SegmentLength` | src/udp.c:68-68 | the UDP length field in numbers, for every payload length |
| `Udp.BufferAskedIs` | src/udp.c:68-94 | the size asked of `realloc` in numbers: the length with its two bytes swapped |
| `Udp.BufferAskedIff` | src/udp.c:68-94 | exactly when the byte-swapped size asked of `realloc` holds header and payload, and the least payload for which it does not |
| `Udp.UdpSend` | src/udp.c:87-105 | for every payload, every failure and every block from `realloc` of at least the size asked: exactly one frame with the datagram goes out, or nothing; the table changes as for one transmission or not at all; which of the two buffers is overrun, and when |
| `Delivery.SegmentReadBack` | src/udp.c:55-99 | a reader of RFC 768 headers recovers ports and payload |
| `Delivery.FieldsReadBack` | src/udp.c:87-105 | every datagram with up to 65507 bytes of payload holds the addresses, ports, protocol, TTL and payload of its send |
| `Delivery.DeliveredIff` | src/ip.c:229-251 | a receiver delivers a send if and only if its protocol is UDP and `no_fragment` is off, and then as it was sent |
| `Delivery.TotalLengthIs` | src/ip.c:185-185 | the total length field in numbers, for every payload length |
| `Delivery.TotalLengthIff` | src/ip.c:185-185 | the total length field is the byte count if and only if the payload has at most 65507 bytes |
| `Delivery.UdpLengthIff` | src/udp.c:68-68 | the UDP length field is payload plus 8 if and only if that fits 16 bits |
| `Delivery.SendExtendsLine` | src/udp.c:101-101 | one more send appends one more frame |
| `Delivery.LineFieldsReadBack` | src/udp.c:87-105 | for every sequence of sends the serial line holds the fields and payload of each, in order, and nothing else |
| `Delivery.LineDelivers` | src/udp.c:87-105 | a receiver that knows the code's own framing delivers exactly the deliverable sends, in order, and all of them if and only if every one is deliverable |
| `Delivery.ParsedAddressOnWire` | src/data_util.c:57-61 | a destination given in dotted decimal is on the wire as its numbers, in order |
| `Interop.PacketsReceivedIff` | src/slip.c:58-77 | an RFC 1055 receiver gets the packets of a run of sends if and only if none holds `C0` or `DB` |
| `Interop.AddressLosesPacket` | src/slip.c:62-74 | a datagram with an address octet of 192 or 219 never comes out first from its own frame, whatever follows it |
| `Interop.ReadsAsSentOnlyIfClean` | src/slip.c:62-74 | what the receiver makes of the whole bytes of a damaged packet never reads as the send: a field or the header checksum shows it |
| `Interop.StandardDeliveryIff` | src/udp.c:87-105 | for every sequence of sends, a receiver by the standards delivers exactly those if and only if every message is UDP without `no_fragment` and every packet is free of `C0` and `DB` |
| `Stack.SendStep` | src/udp.c:87-105 | a call of `udp_send`, whatever its payload and whichever allocation fails, does to table and line exactly what one step of the run model does |
| `Stack.LineOfRun` | src/udp.c:87-105 | over a run the line grows by the frames of the sends |
| `Stack.SendsOfRun` | src/udp.c:87-105 | the sends of a run are the messages of the calls that succeeded, in order |
| `Stack.MarksOfRun` | src/ip.c:226-260 | the table changes as in a run of `ipv4_transmit_datagram` |
| `Stack.RunDelivers` | src/udp.c:87-105 | every run with at most 21843 buffer failures completes and leaves as many marks as failures; the line holds exactly the messages that succeeded; exactly what a receiver of the code's framing delivers, and exactly when a receiver by the standards delivers all |
| `Stack.SendsRepeatIdIff` | src/ip.c:81-129 | exactly when two sends, with any run between them, do what section 4.3 of RFC 6864 forbids |

## Left out

- AllocateId: demands that the search ends, since a Dafny method cannot loop for ever; `TerminatesIff` shows that the C loop ends in no other case. `last_block + rand()` is an unbounded sum, without signed overflow.
- TransmitDatagram: where header and data exceed 65535 bytes the C code copies past its packet buffer; the model ends there with `Overrun` and says nothing of what follows.
- UdpSend: models the packet as header then payload. A copy past either buffer ends the model of the call, and `RunDelivers` counts such a call as one that did not succeed; in C its behaviour is undefined. That a larger block than was asked for may be used is an assumption about the heap; the reuse of the old pointer after `realloc` is not modelled.
- Failure of the `calloc` in `create_udp_hdr` and in `ip_initialise`, which assertions stop, and of the `strdup` in `inet_addr`.
- Parse: `atoi` is unbounded here; the C standard leaves values outside `int` undefined. A string ends at its terminating zero. An octet of 128 or more in the last field is shifted into the sign bit of an `int`; the model gives it the bits that a two's complement machine does.
- The options path of `create_ipv4_hdr`: storage is only the fixed 20 bytes, and its padding step adds 4 instead of rounding up.
- Port I/O, raw sockets, Ethernet and the link dispatch: the serial line is a byte sequence.
- Return-value conventions: failure is `None` here, where the layers of the C code return 0 or a truncated -1.
- Concurrency: the mutex is commented out in the source, so steps are sequential.
- The quality of `rand()` and `srand()`: the start block is arbitrary.
- `craft_ipv4_psd_hdr`, `build_packet`, `ipv4_parse_tos`, `htonl`, IPv6, TCP, ICMP and receiving: unused or stubs.
- `ip_finalise` and the set-up in `src/main.c` and `src/socket.c`: they would only add easy members.
