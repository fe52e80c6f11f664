# Router-Lab data plane in Dafny

A model of the data plane of the Router-Lab IPv4 router. It covers four pieces
of the C++ code:

- **Checksum** (`Checksum.dfy`, from `Homework/checksum/checksum.cpp`).
  - `calcChecksum` adds big-endian 16-bit words into a `uint32_t`, folds the
    carry once and truncates the result to 16 bits.
  - The IPv4 and UDP header accessors and `validateIPChecksum`.
  - The UDP checksum with its pseudo-header (RFC 768), which folds twice.
- **Forwarding** (`Forwarding.dfy`, from `Homework/forwarding/forwarding.cpp`).
  `forward` checks the IPv4 header checksum. If it is correct, `forward`
  decrements the TTL and rewrites the checksum in place on an `array<byte>`.
- **RIP codec** (`Protocol.dfy`, from `Homework/protocol/protocol.cpp`). This
  is the RIPv2 message format of section 4 of RFC 2453, on UDP port 520
  (section 3.6).
  - `RipRouteEntry` and `RipPacketRaw` with their `load_from_info`,
    `write_to_info` and `validate`.
  - `assemble`, which writes into a buffer.
  - `disassemble`, a chain of checks followed by a copy of the records.
- **Routing table** (`Lookup.dfy`, from `Homework/lookup/lookup.cpp`).
  - The global vector `entries`, held as a `seq` field of the class
    `RoutingTable`.
  - `key_equal`, `find_addr` and `match`.
  - `update`: upsert or delete by key.
  - `prefix_query`: the longest-prefix match, where ties go to the first
    entry.

`Bytes.dfy` holds the shared vocabulary:

- the C integer types as `int` subset types;
- `BE16` for every `ntohs`/`htons` field;
- `Store32`/`Load32`, the in-memory form of a raw `uint32_t` on the
  little-endian host the code targets;
- `Overwrite`, the effect of writing bytes into a buffer.

Raw address fields are never byte-swapped. They are compared and copied as the
integers the host loads. `match` masks the LOW-order `len` bits, as written.

The model follows the code as written wherever the code and its comments
differ. In particular:

- `calcChecksum` keeps its single fold.
- An odd length reads one byte past the range and counts the last byte
  twice.
- `disassemble` checks only what its body checks.

## Model

| member | source | states |
|---|---|---|
| Checksum.ComputeChecksum | Homework/checksum/checksum.cpp:6-14 | The word loop with its 32-bit wrap, the odd-length addition, one fold and the truncating return compute `CalcChecksum`: the fold of the wrapped word sum, truncated to 16 bits. |
| Checksum.EvenLengthChecksum | Homework/checksum/checksum.cpp:6-14 | For an even length whose words cannot overflow the accumulator (len/2 * 0xFFFF < 2^32), the checksum is (S mod 2^16 + S div 2^16) mod 2^16, where S is the sum of the big-endian words. |
| Checksum.WordSumBound | Homework/checksum/checksum.cpp:7-9 | n words sum to at most n * 0xFFFF. This bounds when the 32-bit accumulator cannot wrap. |
| Checksum.OddLengthChecksum | Homework/checksum/checksum.cpp:8-11 | For an odd length the accumulator includes data[len], one byte past the range, and counts data[len-1] 257 times (0x101) instead of 256. |
| Checksum.ChecksumIsOnesComplementSum | Homework/checksum/checksum.cpp:12-13 | The result is congruent to the sum modulo 0xFFFF (the ones'-complement sum) exactly when the single fold leaves no carry. With a carry it is the fold minus 2^16. |
| Checksum.FoldTwiceExact | Homework/checksum/checksum.cpp:58-60 | Two folds of a 32-bit value fit in 16 bits and stay congruent to the value modulo 0xFFFF. |
| Checksum.HeaderLength | Homework/checksum/checksum.cpp:27 | get_header_length is a multiple of 4 and at most 60. |
| Checksum.PayloadLength | Homework/checksum/checksum.cpp:28-31 | The payload length is total minus header length when the total is the larger. Otherwise it wraps to 2^16 + total - header. |
| Checksum.IpChecksum | Homework/checksum/checksum.cpp:34-36 | IPHeader::calc_checksum: calcChecksum over the first header_length bytes of the packet. |
| Checksum.ValidateIPChecksum | Homework/checksum/checksum.cpp:70-73 | True exactly when IpChecksum of the packet is 0xffff. It requires that len covers the header, as the doc comment guarantees, and reads nothing else of len. |
| Checksum.ValidateReadsOnlyHeader | Homework/checksum/checksum.cpp:64-73 | validateIPChecksum depends only on the first header_length bytes: neither len nor any later byte changes its answer. |
| Checksum.UdpChecksum | Homework/checksum/checksum.cpp:49-61 | The UDP checksum is the double fold of the pseudo-sum. That sum is calcChecksum over 8 + length bytes of the UDP header on, plus calcChecksum of each address's 4 bytes, plus 17, plus calcChecksum of the length field. The result is congruent to the pseudo-sum modulo 0xFFFF, so it loses no carry. |
| Checksum.UdpCalcChecksum | Homework/checksum/checksum.cpp:49-61 | The straight-line accumulation with its two folds returns `UdpChecksum`. |
| Forwarding.ChecksumUpdated | Homework/forwarding/forwarding.cpp:10-15 | updateIPChecksum changes only bytes 10-11. They then hold, big-endian, the complement of the checksum of the header with that field zeroed. The zeroed header is unchanged. |
| Forwarding.TtlDecreased | Homework/forwarding/forwarding.cpp:18-21 | The TTL at byte 8 becomes ttl - 1, and 0 wraps to 255. Every other byte is unchanged. |
| Forwarding.Forwarded | Homework/forwarding/forwarding.cpp:33-40 | After a successful forward only bytes 8, 10 and 11 may differ. The TTL is decremented, and the checksum equals the complement of the checksum computed after the decrement. |
| Forwarding.TtlDecrease | Homework/forwarding/forwarding.cpp:18-21 | The array afterwards is `TtlDecreased` of the array before. |
| Forwarding.UpdateIPChecksum | Homework/forwarding/forwarding.cpp:10-15 | Zeroing the field, complementing calcIPChecksum and storing it with htons leaves the array equal to `ChecksumUpdated` of the array before. |
| Forwarding.Forward | Homework/forwarding/forwarding.cpp:33-40 | The result is validateIPChecksum of the input. On false the array is unchanged. On true the array is `Forwarded` of the input. |
| Forwarding.UpdateIdempotent | Homework/forwarding/forwarding.cpp:12-14 | updateIPChecksum applied twice equals applying it once. |
| Forwarding.UpdatedValidatesIff | Homework/forwarding/forwarding.cpp:12-14 | The rewritten header passes validateIPChecksum exactly when the single fold over the zeroed header leaves no carry. |
| Forwarding.ForwardedValidatesIff | Homework/forwarding/forwarding.cpp:37-38 | After forward, the packet validates exactly when the fold over the decremented, zeroed header leaves no carry. |
| Forwarding.UpdateCanBreakValidation | Homework/checksum/checksum.cpp:12-13 | A concrete 20-byte header whose zeroed words sum to 0x1FFFF. updateIPChecksum stores 0xFFFF there, and the result fails validateIPChecksum. |
| Forwarding.ForwardCanBreakValidation | Homework/forwarding/forwarding.cpp:33-40 | A concrete 20-byte header with TTL 1 that passes validateIPChecksum, so forward succeeds on it; the packet forward leaves fails validateIPChecksum. |
| Protocol.EncodeEntry | Homework/protocol/protocol.cpp:25-32 | The record load_from_info lays down is 20 bytes: family 00 02, tag 00 00, then the in-memory bytes of addr, mask, nexthop and metric (positions in `EncodeEntryFields`). |
| Protocol.ReadRouteEntry | Homework/protocol/protocol.cpp:34-39 | write_to_info for one record: addr, mask, nexthop and metric are the raw 32-bit loads at +4, +8, +12 and +16; family and tag are dropped. |
| Protocol.EncodeEntryFields | Homework/protocol/protocol.cpp:25-32 | load_from_info writes family 00 02 and tag 00 00, then the addr, mask, nexthop and metric bytes at +4, +8, +12 and +16. |
| Protocol.ReadAppendedEntry | Homework/protocol/protocol.cpp:25-39 | write_to_info of a record that load_from_info wrote yields the same entry. |
| Protocol.EncodeReadEntry | Homework/protocol/protocol.cpp:25-39 | For a record whose family and tag are 00 02 00 00, load_from_info of what write_to_info read reproduces its 20 bytes. |
| Protocol.LoadRouteEntry | Homework/protocol/protocol.cpp:25-32 | Writing a record changes exactly the 20 bytes at its offset, to the record's encoding. |
| Protocol.LoadPacketRaw | Homework/protocol/protocol.cpp:48-55 | The buffer holds command, 2, 0, 0 and then one record per entry. Nothing past the message changes. |
| Protocol.Assemble | Homework/protocol/protocol.cpp:120-125 | The returned length is 4 + 20 * numEntries. The prefix of that length is the encoded message, and the rest of the buffer is unchanged. |
| Protocol.WriteToInfo | Homework/protocol/protocol.cpp:58-64 | numEntries is n and the command is copied. Record i is read from 4 + 20i past the header, with the same four fields. |
| Protocol.DecodeEntriesAt | Homework/protocol/protocol.cpp:61-63 | Decoded record i is the record at offset off + 20i. |
| Protocol.RawRoundTrip | Homework/protocol/protocol.cpp:25-64 | write_to_info applied to what load_from_info wrote yields the same command and the same entries. |
| Protocol.EncodeDecodedMessage | Homework/protocol/protocol.cpp:48-69 | A message that passes validate, and whose records carry family 00 02 and tag 00 00, is reproduced by encoding what write_to_info read from it. |
| Protocol.RawValid | Homework/protocol/protocol.cpp:67-69 | validate: command 1 or 2, version 2, and the 16-bit zero field 0. |
| Protocol.RawHeaderBytes | Homework/protocol/protocol.cpp:67-69 | A header that passes validate is the command followed by 02 00 00. |
| Protocol.Disassemble | Homework/protocol/protocol.cpp:87-107 | The result is false when total length > len or protocol != 17. It is true exactly when all checks pass in order: total length, protocol, both ports 520, UDP checksum 0xffff, validate. On true the message has the command and UDP length / 20 records, each read from header_length + 12 + 20i. |
| Protocol.AssembleDecodedReproduces | Homework/protocol/protocol.cpp:87-125 | For an accepted packet whose records carry family 00 02 and tag 00 00, the message assemble writes for the decoded packet equals the packet's 4 + 20n RIP bytes. |
| Lookup.KeyEqual | Homework/lookup/lookup.cpp:24-26 | key_equal: the same addr and the same len; if_index and nexthop are ignored. |
| Lookup.Match | Homework/lookup/lookup.cpp:39-43 | len 32: the entry's addr equals addr. Otherwise the entry's addr equals addr mod 2^len, the low len bits of the raw integer. It requires len <= 32, since a wider shift is undefined in C++. |
| Lookup.KeyIndex | Homework/lookup/lookup.cpp:24-36 | The least index whose addr and len equal the key's. It is -1 exactly when no entry has that key. |
| Lookup.RoutingTable.FindAddr | Homework/lookup/lookup.cpp:29-36 | The loop returns the least index with the key, or -1 exactly when there is none. |
| Lookup.RoutingTable.Update | Homework/lookup/lookup.cpp:53-69 | The new table is `Updated(old, insert, entry)`: append, replace at the key's index, or erase it. Unique keys stay unique. |
| Lookup.InsertAbsentAppends | Homework/lookup/lookup.cpp:55-58 | Inserting an absent key gives entries + [entry]. |
| Lookup.InsertPresentReplaces | Homework/lookup/lookup.cpp:59-61 | Inserting a present key keeps the size and replaces the whole entry at its first index. Every other index is unchanged. |
| Lookup.DeleteRemovesFirstMatch | Homework/lookup/lookup.cpp:63-67 | Deleting removes exactly the first entry with the key and shifts the later ones down by one, keeping their order. |
| Lookup.DeleteAbsentKeepsTable | Homework/lookup/lookup.cpp:63-68 | Deleting an absent key leaves the table unchanged. |
| Lookup.UpdatePreservesUniqueKeys | Homework/lookup/lookup.cpp:50-69 | If keys are unique before update, they are unique after it. Afterwards the key is present exactly when the update was an insert. |
| Lookup.DefaultRouteMatchesAll | Homework/lookup/lookup.cpp:39-43 | Under the invariant of the comment at line 17 (addr < 2^len), an entry of length 0 matches every address. |
| Lookup.EntryMatchesOwnAddress | Homework/lookup/lookup.cpp:39-43 | Under the same invariant every entry matches its own addr. |
| Lookup.FirstLongestMatchUnique | Homework/lookup/lookup.cpp:82-88 | At most one index is the first longest match, so the answer is determined by the table and the address. |
| Lookup.RoutingTable.PrefixQuery | Homework/lookup/lookup.cpp:78-95 | Found exactly when some entry matches. When nothing matches, the outputs keep their previous values. When found, they come from the entry that matches with maximal len, and every earlier matching entry is strictly shorter. The table is not modified. |

## Left out

- calcIPChecksum is declared extern in `Homework/forwarding/forwarding.cpp` and
  its definition is not part of this model. It is assumed to be
  `IPHeader::calc_checksum`, i.e. calcChecksum over the first header_length
  bytes (`Checksum.IpChecksum`).
- Forwarding.Forwarded: a successful forward does not guarantee that the packet
  validates again. The single fold in calcChecksum can lose a carry. The model
  states the exact condition (`UpdatedValidatesIff`, `ForwardedValidatesIff`)
  and a header that passes validateIPChecksum where forward succeeds and
  leaves a packet that fails it (`ForwardCanBreakValidation`).
  `UpdateCanBreakValidation` is a witness for updateIPChecksum alone, on a
  header that forward would reject.
- Protocol.Disassemble: the doc comment lists checks that the body does not
  make, and the model does not make them either. They are:
  - family/command correspondence;
  - tag 0;
  - metric in [1, 16];
  - a contiguous mask.

  The comment also says checksums need not be checked, yet the body checks
  the UDP checksum. The model follows the body.
- Checksum.UdpChecksum: this is not the RFC 768 checksum.
  - It sums 8 + length bytes from the UDP header on, 8 bytes more than the
    datagram.
  - The single-fold calcChecksum is nested inside it.
  - There is no 0 to 0xFFFF special case.

  It is modelled as written.
- Undefined behaviour becomes preconditions rather than rejection paths:
  - reads past the buffer: `Readable`, `UdpChecksumReadable` and `InBounds`;
  - `1u << len` for len > 32: `Match` requires len <= 32.
- The capacity of `RipPacket.entries` is defined in `rip.h`, which is not part
  of this model. `RipPacket` holds its entries as an unbounded sequence.
- `rip.h` and `router.h` are not part of this model. `RipEntry`, `RipPacket`
  and `RoutingTableEntry` are rebuilt from their uses and from the struct
  comment in `lookup.cpp`.
- Casts from byte buffers to structs, struct alignment and host byte order
  are replaced by explicit byte offsets. `BE16` stands for ntohs/htons, and `Load32`/`Store32` for the
  little-endian host's raw `uint32_t`.
- updateIPChecksum never reads its `len` parameter, so `UpdateIPChecksum`
  has none. validateIPChecksum never reads its `len` either; the model keeps
  it only to state that it covers the header.
- The routing table as a global variable, and any concurrent access to it, are
  not modelled. The table is one `RoutingTable` object.
- The `get_payload` address and the `IPHeader`/`UDPHeader` getters without a
  contract are plain accessor functions, with no table row: `TotalLength`,
  `Ttl`, `IpProtocol`, `SrcAddr`, `DstAddr`, `UdpSrcPort`, `UdpDstPort`,
  `UdpLength` and `Udp`.
- Where the standards or the code's own comments expect something else, the
  model follows the code:
  - RFC 1071 folds until no carry remains and pads an odd final byte with a
    zero low byte. calcChecksum folds once, reads one byte past the range and
    counts the last byte twice (`OddLengthChecksum`,
    `ChecksumIsOnesComplementSum`).
  - RFC 768 sums the datagram up to its length field, header included. The
    code sums 8 bytes more (`UdpChecksum`).
  - Under RFC 768 the UDP length counts the 8-byte UDP header, and under
    section 4 of RFC 2453 a message is a 4-byte header plus 20 bytes per
    record, so a datagram carries (length - 12) / 20 records. The code takes
    length / 20 and does not reject a remainder (`EntryCount`).
  - The doc comment of disassemble (protocol.cpp lines 80-85) asks that
    records with a wrong family, a non-zero tag, a metric outside [1, 16] (0
    or 17, say) or a non-contiguous mask be rejected. The code checks none
    of these (`Disassemble`).
  - Under RFC 1071 a header whose checksum field was just computed sums to
    all ones, so it validates. After forward this holds only when the single
    fold leaves no carry (`ForwardedValidatesIff`,
    `ForwardCanBreakValidation`).
  - Section 3.9.1 of RFC 2453 gives a request for the whole table address
    family 0. The code always writes family 2 (`EncodeEntryFields`).
