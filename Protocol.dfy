/** The RIPv2 codec of protocol.cpp (message format of section 4 of RFC 2453,
    UDP port 520 of section 3.6). disassemble checks the IP and UDP headers
    and the 4-byte RIP header, then copies the route records verbatim;
    assemble writes the RIP header and one 20-byte record per entry. */
module Protocol {
  import opened Bytes
  import opened Checksum

  const RIP_PORT := 520
  /** sizeof(RipPacketRaw): command, version, zero. */
  const RIP_HEADER_SIZE := 4
  /** sizeof(RipRouteEntry): family, tag, addr, mask, nexthop, metric. */
  const RIP_ENTRY_SIZE := 20
  const RIP_VERSION := 2
  /** The address family (htons(2)) and route tag (htons(0)) written ahead of
      every record. */
  const FAMILY_AND_TAG: seq<byte> := [0, 2, 0, 0]

  /** RipEntry: the four 32-bit fields are kept as the integers a
      little-endian host loads from the wire bytes; they are never swapped. */
  datatype RipEntry = RipEntry(addr: uint32, mask: uint32, nexthop: uint32, metric: uint32)

  /** RipPacket: command and the route records; numEntries is |entries|. */
  datatype RipPacket = RipPacket(command: byte, entries: seq<RipEntry>)

  // ---------------------------------------------------------------------
  // RipRouteEntry
  // ---------------------------------------------------------------------

  /** The 20 bytes RipRouteEntry::load_from_info lays down for e. */
  function EncodeEntry(e: RipEntry): (r: seq<byte>)
    ensures |r| == RIP_ENTRY_SIZE
  {
    FAMILY_AND_TAG + Store32(e.addr) + Store32(e.mask) + Store32(e.nexthop) + Store32(e.metric)
  }

  /** Where each field sits in the 20 bytes of a record. */
  lemma EncodeEntryFields(e: RipEntry)
    ensures EncodeEntry(e)[..4] == FAMILY_AND_TAG
    ensures EncodeEntry(e)[4..8] == Store32(e.addr) && EncodeEntry(e)[8..12] == Store32(e.mask)
    ensures EncodeEntry(e)[12..16] == Store32(e.nexthop) && EncodeEntry(e)[16..20] == Store32(e.metric)
  {
    var a, m, h, t := Store32(e.addr), Store32(e.mask), Store32(e.nexthop), Store32(e.metric);
    var r := FAMILY_AND_TAG + a + m + h + t;
    assert r[..4] == FAMILY_AND_TAG;
    assert r[4..8] == a;
    assert r[8..12] == m;
    assert r[12..16] == h;
    assert r[16..20] == t;
  }

  /** RipRouteEntry::write_to_info for the record at offset off: addr, mask,
      nexthop and metric at +4, +8, +12 and +16; family and tag are dropped. */
  function ReadRouteEntry(b: seq<byte>, off: nat): RipEntry
    requires off + RIP_ENTRY_SIZE <= |b|
  {
    RipEntry(Load32(b, off + 4), Load32(b, off + 8), Load32(b, off + 12), Load32(b, off + 16))
  }

  /** Reading back a record that load_from_info wrote right after x yields
      the same entry. */
  lemma ReadAppendedEntry(x: seq<byte>, e: RipEntry)
    ensures ReadRouteEntry(x + EncodeEntry(e), |x|) == e
  {
    var t := EncodeEntry(e);
    EncodeEntryFields(e);
    Load32Suffix(x, t, 4);
    LoadStoredAt(t, 4, e.addr);
    Load32Suffix(x, t, 8);
    LoadStoredAt(t, 8, e.mask);
    Load32Suffix(x, t, 12);
    LoadStoredAt(t, 12, e.nexthop);
    Load32Suffix(x, t, 16);
    LoadStoredAt(t, 16, e.metric);
  }

  /** A record that lies inside x reads the same whatever follows x. */
  lemma ReadEntryPrefix(x: seq<byte>, y: seq<byte>, off: nat)
    requires off + RIP_ENTRY_SIZE <= |x|
    ensures ReadRouteEntry(x + y, off) == ReadRouteEntry(x, off)
  {
    Load32Prefix(x, y, off + 4);
    Load32Prefix(x, y, off + 8);
    Load32Prefix(x, y, off + 12);
    Load32Prefix(x, y, off + 16);
  }

  /** Encoding a record that was read reproduces its 20 bytes, provided its
      family and tag are the fixed 00 02 00 00. */
  lemma EncodeReadEntry(b: seq<byte>, off: nat)
    requires off + RIP_ENTRY_SIZE <= |b| && b[off..off + 4] == FAMILY_AND_TAG
    ensures EncodeEntry(ReadRouteEntry(b, off)) == b[off..off + RIP_ENTRY_SIZE]
  {
    StoreLoad32(b, off + 4);
    StoreLoad32(b, off + 8);
    StoreLoad32(b, off + 12);
    StoreLoad32(b, off + 16);
    assert b[off..off + RIP_ENTRY_SIZE]
        == b[off..off + 4] + b[off + 4..off + 8] + b[off + 8..off + 12]
           + b[off + 12..off + 16] + b[off + 16..off + 20];
  }

  // ---------------------------------------------------------------------
  // RipPacketRaw
  // ---------------------------------------------------------------------

  /** The records of es laid out one after the other. */
  function EncodeEntries(es: seq<RipEntry>): (r: seq<byte>)
    ensures |r| == RIP_ENTRY_SIZE * |es|
  {
    if es == [] then [] else EncodeEntries(es[..|es| - 1]) + EncodeEntry(es[|es| - 1])
  }

  /** Extending the encoded prefix es[..i] by one record. */
  lemma EncodeEntriesSnoc(es: seq<RipEntry>, i: nat)
    requires i < |es|
    ensures EncodeEntries(es[..i + 1]) == EncodeEntries(es[..i]) + EncodeEntry(es[i])
  {
    assert es[..i + 1][..i] == es[..i];
  }

  /** The RIP message RipPacketRaw::load_from_info lays down for rip:
      command, version 2, a zero 16-bit field, then the records. */
  function EncodeRip(rip: RipPacket): (r: seq<byte>)
    ensures |r| == RIP_HEADER_SIZE + RIP_ENTRY_SIZE * |rip.entries|
  {
    [rip.command, RIP_VERSION, 0, 0] + EncodeEntries(rip.entries)
  }

  /** The n records RipPacketRaw::write_to_info copies, the first at off. */
  function DecodeEntries(b: seq<byte>, off: nat, n: nat): (r: seq<RipEntry>)
    requires off + RIP_ENTRY_SIZE * n <= |b|
    ensures |r| == n
  {
    if n == 0 then [] else DecodeEntries(b, off, n - 1) + [ReadRouteEntry(b, off + RIP_ENTRY_SIZE * (n - 1))]
  }

  /** Decoded record i is the record read at off + 20 * i. */
  lemma {:induction false} DecodeEntriesAt(b: seq<byte>, off: nat, n: nat)
    requires off + RIP_ENTRY_SIZE * n <= |b|
    ensures forall i | 0 <= i < n ::
      DecodeEntries(b, off, n)[i] == ReadRouteEntry(b, off + RIP_ENTRY_SIZE * i)
  {
    if n > 0 {
      DecodeEntriesAt(b, off, n - 1);
    }
  }

  /** RipPacketRaw::validate for the RIP header at off: command 1 or 2,
      version 2, zero field 0. */
  predicate RawValid(b: seq<byte>, off: nat)
    requires off + RIP_HEADER_SIZE <= |b|
  {
    (b[off] == 1 || b[off] == 2) && b[off + 1] == RIP_VERSION && BE16(b, off + 2) == 0
  }

  /** A header that passes validate is the command followed by 02 00 00. */
  lemma RawHeaderBytes(b: seq<byte>, off: nat)
    requires off + RIP_HEADER_SIZE <= |b| && RawValid(b, off)
    ensures b[off..off + RIP_HEADER_SIZE] == [b[off], RIP_VERSION, 0, 0]
  {
    assert b[off + 2] == 0 && b[off + 3] == 0;
  }

  /** Records that lie inside x decode the same whatever follows x. */
  lemma {:induction false} DecodeEntriesPrefix(x: seq<byte>, y: seq<byte>, off: nat, n: nat)
    requires off + RIP_ENTRY_SIZE * n <= |x|
    ensures DecodeEntries(x + y, off, n) == DecodeEntries(x, off, n)
  {
    if n > 0 {
      DecodeEntriesPrefix(x, y, off, n - 1);
      ReadEntryPrefix(x, y, off + RIP_ENTRY_SIZE * (n - 1));
    }
  }

  /** Appending one encoded record after m records adds that record to what
      decodes. */
  lemma DecodeAppendedEntry(y: seq<byte>, e: RipEntry, off: nat, m: nat)
    requires off + RIP_ENTRY_SIZE * m == |y|
    ensures DecodeEntries(y + EncodeEntry(e), off, m + 1) == DecodeEntries(y, off, m) + [e]
  {
    DecodeEntriesPrefix(y, EncodeEntry(e), off, m);
    ReadAppendedEntry(y, e);
  }

  /** The records decoded from the encoding of es placed after any prefix x
      are es. */
  lemma {:induction false} DecodeEncodedEntries(x: seq<byte>, es: seq<RipEntry>)
    ensures DecodeEntries(x + EncodeEntries(es), |x|, |es|) == es
  {
    if es != [] {
      var n := |es|;
      var front, last := es[..n - 1], es[n - 1];
      var y := x + EncodeEntries(front);
      assert es[..n - 1] == front;
      assert x + EncodeEntries(es) == y + EncodeEntry(last);
      DecodeEncodedEntries(x, front);
      DecodeAppendedEntry(y, last, |x|, n - 1);
      assert es == front + [last];
    }
  }

  /** Each of the n records from off starts with the fixed family and tag. */
  predicate TaggedRecords(b: seq<byte>, off: nat, n: nat)
    requires off + RIP_ENTRY_SIZE * n <= |b|
  {
    forall i | 0 <= i < n ::
      b[off + RIP_ENTRY_SIZE * i..off + RIP_ENTRY_SIZE * i + 4] == FAMILY_AND_TAG
  }

  /** Encoding the records decoded from a range whose records all carry the
      fixed family and tag reproduces the range. */
  lemma {:induction false} EncodeDecodedEntries(b: seq<byte>, off: nat, n: nat)
    requires off + RIP_ENTRY_SIZE * n <= |b| && TaggedRecords(b, off, n)
    ensures EncodeEntries(DecodeEntries(b, off, n)) == b[off..off + RIP_ENTRY_SIZE * n]
  {
    if n > 0 {
      var es := DecodeEntries(b, off, n);
      var mid := off + RIP_ENTRY_SIZE * (n - 1);
      assert es[..n - 1] == DecodeEntries(b, off, n - 1);
      EncodeDecodedEntries(b, off, n - 1);
      assert b[mid..mid + 4] == FAMILY_AND_TAG;
      EncodeReadEntry(b, mid);
      assert b[off..off + RIP_ENTRY_SIZE * n] == b[off..mid] + b[mid..mid + RIP_ENTRY_SIZE];
    }
  }

  /** A RIP message at off that passes validate and whose n records carry the
      fixed family and tag is reproduced by encoding what write_to_info reads. */
  lemma EncodeDecodedMessage(b: seq<byte>, off: nat, n: nat)
    requires off + RIP_HEADER_SIZE + RIP_ENTRY_SIZE * n <= |b| && RawValid(b, off)
    requires TaggedRecords(b, off + RIP_HEADER_SIZE, n)
    ensures EncodeRip(RipPacket(b[off], DecodeEntries(b, off + RIP_HEADER_SIZE, n)))
         == b[off..off + RIP_HEADER_SIZE + RIP_ENTRY_SIZE * n]
  {
    var start := off + RIP_HEADER_SIZE;
    var end := start + RIP_ENTRY_SIZE * n;
    var es := DecodeEntries(b, start, n);
    RawHeaderBytes(b, off);
    EncodeDecodedEntries(b, start, n);
    SliceSplit(b, off, start, end, [b[off], RIP_VERSION, 0, 0], EncodeEntries(es));
  }

  /** write_to_info(numEntries, ...) on what load_from_info wrote yields the
      same command and the same entries. */
  lemma RawRoundTrip(rip: RipPacket)
    ensures EncodeRip(rip)[0] == rip.command
    ensures DecodeEntries(EncodeRip(rip), RIP_HEADER_SIZE, |rip.entries|) == rip.entries
  {
    DecodeEncodedEntries([rip.command, RIP_VERSION, 0, 0], rip.entries);
  }

  /** The raw fields of a uint32_t assignment: v's four bytes written at `at`. */
  method Store32At(buf: array<byte>, at: nat, v: uint32)
    requires at + 4 <= buf.Length
    modifies buf
    ensures buf[..] == Overwrite(old(buf[..]), at, Store32(v))
  {
    var bytes := Store32(v);
    buf[at], buf[at + 1], buf[at + 2], buf[at + 3] := bytes[0], bytes[1], bytes[2], bytes[3];
  }

  /** RipRouteEntry::load_from_info: family htons(2), tag htons(0), and the
      four fields copied verbatim into the record at off. */
  method LoadRouteEntry(buf: array<byte>, off: nat, e: RipEntry)
    requires off + RIP_ENTRY_SIZE <= buf.Length
    modifies buf
    ensures buf[..] == Overwrite(old(buf[..]), off, EncodeEntry(e))
  {
    ghost var before := buf[..];
    buf[off], buf[off + 1] := 0, 2;
    buf[off + 2], buf[off + 3] := 0, 0;
    ghost var written := FAMILY_AND_TAG;
    assert buf[..] == Overwrite(before, off, written);
    Store32At(buf, off + 4, e.addr);
    OverwriteAdjacent(before, off, written, Store32(e.addr));
    written := written + Store32(e.addr);
    Store32At(buf, off + 8, e.mask);
    OverwriteAdjacent(before, off, written, Store32(e.mask));
    written := written + Store32(e.mask);
    Store32At(buf, off + 12, e.nexthop);
    OverwriteAdjacent(before, off, written, Store32(e.nexthop));
    written := written + Store32(e.nexthop);
    Store32At(buf, off + 16, e.metric);
    OverwriteAdjacent(before, off, written, Store32(e.metric));
    written := written + Store32(e.metric);
    assert written == EncodeEntry(e);
  }

  /** Writing record i just after the header and records ..i extends that
      write by one record. */
  lemma LoadedPrefixStep(before: seq<byte>, header: seq<byte>, es: seq<RipEntry>, i: nat)
    requires |header| == RIP_HEADER_SIZE && i < |es|
    requires RIP_HEADER_SIZE + RIP_ENTRY_SIZE * |es| <= |before|
    ensures Overwrite(Overwrite(before, 0, header + EncodeEntries(es[..i])),
                      RIP_HEADER_SIZE + RIP_ENTRY_SIZE * i, EncodeEntry(es[i]))
         == Overwrite(before, 0, header + EncodeEntries(es[..i + 1]))
  {
    var done := header + EncodeEntries(es[..i]);
    var next := EncodeEntry(es[i]);
    OverwriteAdjacent(before, 0, done, next);
    EncodeEntriesSnoc(es, i);
    assert done + next == header + EncodeEntries(es[..i + 1]);
  }

  /** RipPacketRaw::load_from_info on a buffer: the header, then one record
      per entry; nothing past the message changes. */
  method LoadPacketRaw(buf: array<byte>, rip: RipPacket)
    requires RIP_HEADER_SIZE + RIP_ENTRY_SIZE * |rip.entries| <= buf.Length
    modifies buf
    ensures buf[..] == Overwrite(old(buf[..]), 0, EncodeRip(rip))
  {
    ghost var before := buf[..];
    buf[0], buf[1] := rip.command, RIP_VERSION;
    buf[2], buf[3] := 0, 0;
    ghost var header: seq<byte> := [rip.command, RIP_VERSION, 0, 0];
    assert buf[..] == Overwrite(before, 0, header);
    assert header + EncodeEntries(rip.entries[..0]) == header;
    var i := 0;
    while i < |rip.entries|
      invariant 0 <= i <= |rip.entries|
      invariant buf[..] == Overwrite(before, 0, header + EncodeEntries(rip.entries[..i]))
    {
      LoadRouteEntry(buf, RIP_HEADER_SIZE + RIP_ENTRY_SIZE * i, rip.entries[i]);
      LoadedPrefixStep(before, header, rip.entries, i);
      i := i + 1;
    }
    assert rip.entries[..i] == rip.entries;
  }

  /** assemble: write the RIP message for rip into a buffer large enough for
      it and return its length, 4 + 20 * numEntries. */
  method Assemble(rip: RipPacket, buffer: array<byte>) returns (length: nat)
    requires RIP_HEADER_SIZE + RIP_ENTRY_SIZE * |rip.entries| <= buffer.Length
    modifies buffer
    ensures length == RIP_HEADER_SIZE + RIP_ENTRY_SIZE * |rip.entries|
    ensures buffer[..length] == EncodeRip(rip)
    ensures buffer[length..] == old(buffer[length..])
  {
    LoadPacketRaw(buffer, rip);
    length := RIP_HEADER_SIZE + RIP_ENTRY_SIZE * |rip.entries|;
  }

  /** RipPacketRaw::write_to_info(n, rip) for the RIP header at off: the
      command and the n records that follow the header. */
  method WriteToInfo(b: seq<byte>, off: nat, n: nat) returns (rip: RipPacket)
    requires off + RIP_HEADER_SIZE + RIP_ENTRY_SIZE * n <= |b|
    ensures rip.command == b[off]
    ensures rip.entries == DecodeEntries(b, off + RIP_HEADER_SIZE, n)
    ensures |rip.entries| == n
    ensures forall i | 0 <= i < n ::
      rip.entries[i] == ReadRouteEntry(b, off + RIP_HEADER_SIZE + RIP_ENTRY_SIZE * i)
  {
    var entries: seq<RipEntry> := [];
    var i := 0;
    while i < n
      invariant 0 <= i <= n
      invariant entries == DecodeEntries(b, off + RIP_HEADER_SIZE, i)
    {
      entries := entries + [ReadRouteEntry(b, off + RIP_HEADER_SIZE + RIP_ENTRY_SIZE * i)];
      i := i + 1;
    }
    DecodeEntriesAt(b, off + RIP_HEADER_SIZE, n);
    rip := RipPacket(b[off], entries);
  }

  // ---------------------------------------------------------------------
  // disassemble
  // ---------------------------------------------------------------------

  /** Offset of the RIP header: after the IPv4 header and the UDP header. */
  function RipOffset(p: seq<byte>): nat
    requires 1 <= |p|
  {
    HeaderLength(p) + UDP_HEADER_SIZE
  }

  /** The UDP datagram: the packet from the end of the IPv4 header on. */
  function Udp(p: seq<byte>): seq<byte>
    requires 1 <= |p| && HeaderLength(p) <= |p|
  {
    p[HeaderLength(p)..]
  }

  predicate PortsAreRip(p: seq<byte>)
    requires 1 <= |p| && RipOffset(p) <= |p|
  {
    UdpSrcPort(Udp(p)) == RIP_PORT && UdpDstPort(Udp(p)) == RIP_PORT
  }

  /** The UDP checksum with the pseudo-header built from the IPv4 source and
      destination address bytes is 0xffff. */
  predicate UdpChecksumOk(p: seq<byte>)
    requires IPV4_HEADER_SIZE <= |p| && HeaderLength(p) <= |p| && UdpChecksumReadable(Udp(p))
  {
    UdpChecksum(Udp(p), SrcAddr(p), DstAddr(p)) == 0xFFFF
  }

  /** entry_count: the UDP length divided by sizeof(RipRouteEntry). */
  function EntryCount(p: seq<byte>): nat
    requires 1 <= |p| && RipOffset(p) <= |p|
  {
    UdpLength(Udp(p)) / RIP_ENTRY_SIZE
  }

  /** Every byte disassemble reads, on the path its checks take, lies inside
      the packet buffer (disassemble reads unchecked; a read past the buffer is
      undefined behaviour there). */
  predicate InBounds(p: seq<byte>, len: nat)
  {
    IPV4_HEADER_SIZE <= |p| &&
    (TotalLength(p) <= len && IpProtocol(p) == IPPROTO_UDP ==>
      RipOffset(p) <= |p| &&
      (PortsAreRip(p) ==>
        UdpChecksumReadable(Udp(p)) &&
        (UdpChecksumOk(p) ==>
          RipOffset(p) + RIP_HEADER_SIZE <= |p| &&
          (RawValid(p, RipOffset(p)) ==>
            RipOffset(p) + RIP_HEADER_SIZE + RIP_ENTRY_SIZE * EntryCount(p) <= |p|))))
  }

  /** The chain of checks disassemble makes, in its order. */
  predicate Accepted(p: seq<byte>, len: nat)
    requires InBounds(p, len)
  {
    TotalLength(p) <= len &&
    IpProtocol(p) == IPPROTO_UDP &&
    PortsAreRip(p) &&
    UdpChecksumOk(p) &&
    RawValid(p, RipOffset(p))
  }

  /** The message disassemble produces for an accepted packet. */
  function Decoded(p: seq<byte>, len: nat): (rip: RipPacket)
    requires InBounds(p, len) && Accepted(p, len)
  {
    RipPacket(p[RipOffset(p)], DecodeEntries(p, RipOffset(p) + RIP_HEADER_SIZE, EntryCount(p)))
  }

  /** disassemble(packet, len, output): None for false; Some(message) for true
      with the message written to output. */
  method Disassemble(packet: seq<byte>, len: nat) returns (r: Option<RipPacket>)
    requires InBounds(packet, len)
    ensures TotalLength(packet) > len ==> r == None
    ensures IpProtocol(packet) != IPPROTO_UDP ==> r == None
    ensures r.Some? <==> Accepted(packet, len)
    ensures r.Some? ==> r.value == Decoded(packet, len)
    ensures r.Some? ==> r.value.command == packet[RipOffset(packet)]
    ensures r.Some? ==> |r.value.entries| == EntryCount(packet)
    ensures r.Some? ==> forall i | 0 <= i < EntryCount(packet) ::
      r.value.entries[i] == ReadRouteEntry(packet, RipOffset(packet) + RIP_HEADER_SIZE + RIP_ENTRY_SIZE * i)
  {
    if TotalLength(packet) > len {
      return None;
    }
    if IpProtocol(packet) != IPPROTO_UDP {
      return None;
    }
    var udp := Udp(packet);
    if !(UdpSrcPort(udp) == RIP_PORT && UdpDstPort(udp) == RIP_PORT) {
      return None;
    }
    var sum := UdpCalcChecksum(udp, SrcAddr(packet), DstAddr(packet));
    if sum != 0xFFFF {
      return None;
    }
    var entryCount := UdpLength(udp) / RIP_ENTRY_SIZE;
    var rip := RipOffset(packet);
    if !RawValid(packet, rip) {
      return None;
    }
    var output := WriteToInfo(packet, rip, entryCount);
    return Some(output);
  }

  /** For an accepted packet whose records all carry family 00 02 and tag
      00 00, assemble of the decoded message reproduces the 4 + 20n RIP bytes
      of the packet exactly. */
  lemma AssembleDecodedReproduces(p: seq<byte>, len: nat)
    requires InBounds(p, len) && Accepted(p, len)
    requires TaggedRecords(p, RipOffset(p) + RIP_HEADER_SIZE, EntryCount(p))
    ensures EncodeRip(Decoded(p, len))
         == p[RipOffset(p)..RipOffset(p) + RIP_HEADER_SIZE + RIP_ENTRY_SIZE * EntryCount(p)]
  {
    var off, n := RipOffset(p), EntryCount(p);
    assert off + RIP_HEADER_SIZE + RIP_ENTRY_SIZE * n <= |p| && RawValid(p, off);
    assert Decoded(p, len) == RipPacket(p[off], DecodeEntries(p, off + RIP_HEADER_SIZE, n));
    EncodeDecodedMessage(p, off, n);
  }
}
